/** Marshal and Unmarshal as the buffer-filling, buffer-scanning code they are. */
module Buffers {
  import opened Wrappers
  import opened Bytes
  import opened Protocol

  // s with data written over it from position at on.
  function Patch(s: seq<byte>, at: nat, data: seq<byte>): (r: seq<byte>)
    requires at + |data| <= |s|
    ensures |r| == |s|
  {
    s[..at] + data + s[at + |data|..]
  }

  lemma PatchAdjacent(s: seq<byte>, at: nat, x: seq<byte>, y: seq<byte>)
    requires at + |x| + |y| <= |s|
    ensures Patch(Patch(s, at, x), at + |x|, y) == Patch(s, at, x + y)
  {
  }

  // Writes a 32-bit word in little-endian order.
  method PutUint32(buf: array<byte>, at: nat, x: uint32)
    requires at + 4 <= buf.Length
    modifies buf
    ensures buf[..] == Patch(old(buf[..]), at, Le32(x))
  {
    buf[at] := x % 0x100;
    buf[at + 1] := x / 0x100 % 0x100;
    buf[at + 2] := x / 0x100 / 0x100 % 0x100;
    buf[at + 3] := x / 0x100 / 0x100 / 0x100;
  }

  // Writes a 64-bit word in little-endian order.
  method PutUint64(buf: array<byte>, at: nat, x: uint64)
    requires at + 8 <= buf.Length
    modifies buf
    ensures buf[..] == Patch(old(buf[..]), at, Le64(x))
  {
    PatchAdjacent(buf[..], at, Le32(x % 0x1_0000_0000), Le32(x / 0x1_0000_0000));
    PutUint32(buf, at, x % 0x1_0000_0000);
    PutUint32(buf, at + 4, x / 0x1_0000_0000);
  }

  method PutFourWords(buf: array<byte>, at: nat, a: uint32, b: uint32, c: uint32, d: uint32)
    requires at + 16 <= buf.Length
    modifies buf
    ensures buf[..] == Patch(old(buf[..]), at, Le32(a) + Le32(b) + Le32(c) + Le32(d))
  {
    PatchAdjacent(buf[..], at, Le32(a), Le32(b));
    PatchAdjacent(buf[..], at, Le32(a) + Le32(b), Le32(c));
    PatchAdjacent(buf[..], at, Le32(a) + Le32(b) + Le32(c), Le32(d));
    PutUint32(buf, at, a);
    PutUint32(buf, at + 4, b);
    PutUint32(buf, at + 8, c);
    PutUint32(buf, at + 12, d);
  }

  // Go's copy into a stretch of the buffer: as much as fits.
  method Copy(buf: array<byte>, at: nat, to: nat, data: seq<byte>)
    requires at <= to <= buf.Length
    modifies buf
    ensures buf[..] == Patch(old(buf[..]), at, data[..Min(|data|, to - at)])
  {
    var n := Min(|data|, to - at);
    forall i | 0 <= i < n {
      buf[at + i] := data[i];
    }
  }

  // The sum of bytes 2 to 31, or to the end of a shorter buffer, kept in one byte.
  method Checksum(buf: array<byte>) returns (checksum: byte)
    requires buf.Length >= 24
    ensures checksum == Sum(buf[2..Min(PACKAGE_SIZE, buf.Length)]) % 0x100
  {
    ghost var s: seq<byte> := buf[..];
    checksum := 0;
    var i := 2;
    while i < PACKAGE_SIZE && i < buf.Length
      invariant 2 <= i <= Min(PACKAGE_SIZE, buf.Length)
      invariant checksum == Sum(s[2..i]) % 0x100
    {
      SumSnoc(s, 2, i);
      checksum := (checksum as int + buf[i] as int) % 0x100;
      i := i + 1;
    }
    assert s[2..i] == buf[2..i];
  }

  // The switch on the packet type: fills bytes 16 and up of a zeroed buffer.
  method FillBody(buf: array<byte>, p: Packet)
    requires Missing(p).None? && buf.Length == FrameSize(p.header.typ)
    requires buf[16..] == Zeros(buf.Length - 16)
    modifies buf
    ensures buf[..] == Patch(old(buf[..]), 16, Body(p))
  {
    var t := p.header.typ;
    ghost var s := buf[..];
    if t == KEYBOARD {
      var vk, flags := ToUint32(p.keyboard.value.vk), ToUint32(p.keyboard.value.flags);
      PatchAdjacent(s, 16, Le64(p.header.dateTime), Le32(vk));
      PatchAdjacent(s, 16, Le64(p.header.dateTime) + Le32(vk), Le32(flags));
      PutUint64(buf, 16, p.header.dateTime);
      PutUint32(buf, 24, vk);
      PutUint32(buf, 28, flags);
    } else if t == MOUSE {
      var m := p.mouse.value;
      PutFourWords(buf, 16, ToUint32(m.x), ToUint32(m.y), ToUint32(m.wheelDelta), ToUint32(m.flags));
    } else if IsHandshake(t) {
      var h := p.handshake.value;
      PatchAdjacent(s, 16, Le32(h.m1) + Le32(h.m2) + Le32(h.m3) + Le32(h.m4), Zeros(32));
      PutFourWords(buf, 16, h.m1, h.m2, h.m3, h.m4);
      ZerosAlready(s, 32);
    } else if CarriesChunk(t) {
      FillRaw(buf, 16, p.raw);
    } else {
      PatchAdjacent(s, 16, Le64(p.header.dateTime), FitRaw(p.raw, buf.Length - 24));
      PutUint64(buf, 16, p.header.dateTime);
      ZerosAlready(s, 24);
      FillRaw(buf, 24, p.raw);
    }
  }

  lemma ZerosAlready(s: seq<byte>, at: nat)
    requires 16 <= at <= |s| && s[16..] == Zeros(|s| - 16)
    ensures s[at..] == Zeros(|s| - at)
  {
    assert s[at..] == s[16..][at - 16..];
  }

  // Raw data, when there is any, over a zeroed tail.
  method FillRaw(buf: array<byte>, at: nat, raw: Option<seq<byte>>)
    requires at <= buf.Length && buf[at..] == Zeros(buf.Length - at)
    modifies buf
    ensures buf[..] == Patch(old(buf[..]), at, FitRaw(raw, buf.Length - at))
  {
    if raw.Some? {
      Copy(buf, at, buf.Length, raw.value);
    }
  }

  method Marshal(p: Packet, magic: uint32) returns (r: Result<seq<byte>, Error>)
    ensures r == FrameOf(p, magic)
  {
    var size := FrameSize(p.header.typ);
    var buf := new byte[size](i => 0);
    FillHeader(buf, p.header);
    ghost var head := buf[..16];
    if Missing(p).Some? {
      return Err(Missing(p).value);
    }
    assert buf[16..] == Zeros(size - 16);
    FillBody(buf, p);
    assert buf[..] == head + Body(p);
    if size == PACKAGE_SIZE_EX && p.name != [] && !CarriesChunk(p.header.typ) {
      Copy(buf, 32, 64, PadName(p.name));
    }
    assert buf[..] == head + NamedBody(p);
    SealedIsFrame(buf[..], p, magic);
    Seal(buf, magic);
    r := Ok(buf[..]);
  }

  // Type, id, source and destination.
  method FillHeader(buf: array<byte>, h: Header)
    requires buf.Length >= 16 && buf[..] == Zeros(buf.Length)
    modifies buf
    ensures buf[..] == HeaderBytes(h) + Zeros(buf.Length - 16)
  {
    buf[0] := h.typ % 0x100;
    ghost var s := buf[..];
    PatchAdjacent(s, 4, Le32(h.id), Le32(h.src));
    PatchAdjacent(s, 4, Le32(h.id) + Le32(h.src), Le32(h.des));
    PutUint32(buf, 4, h.id);
    PutUint32(buf, 8, h.src);
    PutUint32(buf, 12, h.des);
  }

  ghost function HeaderBytes(h: Header): (r: seq<byte>)
    ensures |r| == 16
  {
    [h.typ % 0x100, 0, 0, 0] + Addressing(h)
  }

  // The magic bytes, then the checksum over bytes 2..31.
  ghost function WithMagic(s: seq<byte>, magic: uint32): (t: seq<byte>)
    requires |s| >= 32
    ensures |t| == |s|
  {
    s[3 := magic / 0x100_0000][2 := magic / 0x1_0000 % 0x100]
  }

  ghost function Sealed(s: seq<byte>, magic: uint32): seq<byte>
    requires |s| >= 32
  {
    var t := WithMagic(s, magic);
    t[1 := Sum(t[2..32]) % 0x100]
  }

  lemma SealedIsFrame(s: seq<byte>, p: Packet, magic: uint32)
    requires Missing(p).None? && |s| == FrameSize(p.header.typ)
    requires s == HeaderBytes(p.header) + NamedBody(p)
    ensures Sealed(s, magic) == Frame(p, magic)
  {
    var t := WithMagic(s, magic);
    var rest := Covered(p, magic);
    SealedTail(s, p, magic);
    assert t[2..32] == t[2..][..30];
  }

  lemma SealedTail(s: seq<byte>, p: Packet, magic: uint32)
    requires Missing(p).None? && |s| == FrameSize(p.header.typ)
    requires s == HeaderBytes(p.header) + NamedBody(p)
    ensures WithMagic(s, magic)[2..] == Covered(p, magic)
    ensures s[0] == p.header.typ % 0x100
  {
    var typ: byte, low: byte, high: byte := p.header.typ % 0x100, magic / 0x1_0000 % 0x100, magic / 0x100_0000;
    var tail := Addressing(p.header) + NamedBody(p);
    Associative([typ, 0, 0, 0], Addressing(p.header), NamedBody(p));
    Associative([low, high], Addressing(p.header), NamedBody(p));
    MagicIntoHead(typ, tail, low, high);
  }

  lemma MagicIntoHead(typ: byte, tail: seq<byte>, low: byte, high: byte)
    ensures ([typ, 0, 0, 0] + tail)[3 := high][2 := low][2..] == [low, high] + tail
    ensures ([typ, 0, 0, 0] + tail)[0] == typ
  {
  }

  method Seal(buf: array<byte>, magic: uint32)
    requires buf.Length >= 32
    modifies buf
    ensures buf[..] == Sealed(old(buf[..]), magic)
  {
    ghost var s: seq<byte> := buf[..];
    buf[3] := magic / 0x100_0000;
    buf[2] := magic / 0x1_0000 % 0x100;
    buf[1] := 0;
    var checksum := Checksum(buf);
    ghost var t := WithMagic(s, magic);
    assert buf[2..32] == t[2..32];
    buf[1] := checksum;
  }

  // The backwards scan over spaces and NULs of the name field.
  method NameEnd(field: seq<byte>) returns (end: nat)
    ensures end <= |field| && field[..end] == Trim(field)
  {
    end := |field|;
    assert field[..end] == field;
    while end > 0 && (field[end - 1] == SPACE || field[end - 1] == 0)
      invariant end <= |field|
      invariant Trim(field[..end]) == Trim(field)
    {
      assert field[..end][..end - 1] == field[..end - 1];
      end := end - 1;
    }
  }

  method Unmarshal(b: array<byte>, magic: uint32) returns (r: Result<Packet, Error>)
    modifies b
    ensures r == ParseFrame(old(b[..]), magic)
    ensures b[..] == if r.Ok? then old(b[..])[1 := 0][2 := 0][3 := 0] else old(b[..])
  {
    if b.Length < 24 {
      return Err(BufferTooSmall);
    }
    ghost var f := b[..];
    var found := 0x100_0000 * b[3] as int + 0x1_0000 * b[2] as int;
    if found != magic / 0x1_0000 * 0x1_0000 {
      return Err(InvalidMagic);
    }
    var checksum := Checksum(b);
    assert b[2..Min(PACKAGE_SIZE, b.Length)] == f[2..Min(PACKAGE_SIZE, |f|)];
    if b[1] != checksum {
      return Err(InvalidChecksum);
    }
    b[1], b[2], b[3] := 0, 0, 0;
    assert forall i, j :: 4 <= i <= j <= |f| ==> b[i..j] == f[i..j];
    var t := b[0];
    var header := Header(t, FromLe32(b[4..8]), FromLe32(b[8..12]), FromLe32(b[12..16]), 0);
    var keyboard, mouse, handshake, name, raw := None, None, None, [], None;
    if t == KEYBOARD {
      header := header.(dateTime := FromLe64(b[16..24]));
      if b.Length >= 32 {
        keyboard := Some(KeyboardData(ToInt32(FromLe32(b[24..28])), ToInt32(FromLe32(b[28..32]))));
      }
    } else if t == MOUSE {
      if b.Length >= 32 {
        mouse := Some(MouseData(ToInt32(FromLe32(b[16..20])), ToInt32(FromLe32(b[20..24])),
                                ToInt32(FromLe32(b[24..28])), ToInt32(FromLe32(b[28..32]))));
      }
    } else if IsHandshake(t) {
      if b.Length >= 32 {
        handshake := Some(HandshakeData(FromLe32(b[16..20]), FromLe32(b[20..24]),
                                        FromLe32(b[24..28]), FromLe32(b[28..32])));
      }
    } else if CarriesChunk(t) {
      if b.Length >= 64 {
        raw := Some(b[16..64]);
      }
    } else {
      header := header.(dateTime := FromLe64(b[16..24]));
      if b.Length > 24 {
        assert b[24..] == f[24..];
        raw := Some(b[24..]);
      }
    }
    if b.Length >= PACKAGE_SIZE_EX && !CarriesChunk(t) {
      var end := NameEnd(b[32..64]);
      name := b[32..64][..end];
    }
    r := Ok(Packet(header, keyboard, mouse, handshake, name, raw));
  }
}
