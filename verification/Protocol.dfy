/** The packet format: what Marshal writes and Unmarshal reads back. */
module Protocol {
  import opened Wrappers
  import opened Bytes

  const HELLO: uint32 := 3
  const HEARTBEAT: uint32 := 20
  const AWAKE: uint32 := 21
  const HEARTBEAT_EX: uint32 := 51
  const CLIPBOARD: uint32 := 69
  const CLIPBOARD_DATA_END: uint32 := 76
  const CLIPBOARD_ASK: uint32 := 78
  const CLIPBOARD_PUSH: uint32 := 79
  const KEYBOARD: uint32 := 122
  const MOUSE: uint32 := 123
  const CLIPBOARD_TEXT: uint32 := 124
  const CLIPBOARD_IMAGE: uint32 := 125
  const HANDSHAKE: uint32 := 126
  const HANDSHAKE_ACK: uint32 := 127
  const MATRIX: uint32 := 128

  const PACKAGE_SIZE: nat := 32
  const PACKAGE_SIZE_EX: nat := 64

  datatype Header = Header(typ: uint32, id: uint32, src: uint32, des: uint32, dateTime: uint64)
  datatype KeyboardData = KeyboardData(vk: int32, flags: int32)
  datatype MouseData = MouseData(x: int32, y: int32, wheelDelta: int32, flags: int32)
  datatype HandshakeData = HandshakeData(m1: uint32, m2: uint32, m3: uint32, m4: uint32)

  /** A GenericData value; None stands for a nil pointer or a nil slice. */
  datatype Packet = Packet(
    header: Header,
    keyboard: Option<KeyboardData>,
    mouse: Option<MouseData>,
    handshake: Option<HandshakeData>,
    name: seq<byte>,
    raw: Option<seq<byte>>)

  datatype Error = KeyboardDataMissing | MouseDataMissing | HandshakeDataMissing
                 | BufferTooSmall | InvalidMagic | InvalidChecksum

  function IsBigPackage(t: uint32): bool {
    if t in {HELLO, AWAKE, HEARTBEAT, HEARTBEAT_EX, HANDSHAKE, HANDSHAKE_ACK,
             CLIPBOARD_PUSH, CLIPBOARD, CLIPBOARD_ASK,
             CLIPBOARD_IMAGE, CLIPBOARD_TEXT, CLIPBOARD_DATA_END}
    then true
    else t / MATRIX % 2 == 1  // bit 7 of the type
  }

  function FrameSize(t: uint32): (n: nat)
    ensures n == PACKAGE_SIZE || n == PACKAGE_SIZE_EX
  {
    if IsBigPackage(t) then PACKAGE_SIZE_EX else PACKAGE_SIZE
  }

  predicate CarriesChunk(t: uint32) {
    t == CLIPBOARD_TEXT || t == CLIPBOARD_IMAGE
  }

  predicate IsHandshake(t: uint32) {
    t == HANDSHAKE || t == HANDSHAKE_ACK
  }

  // ---- Machine names -------------------------------------------------------

  const SPACE: byte := 32

  function Spaces(n: nat): (s: seq<byte>)
    ensures |s| == n
  {
    seq(n, i => SPACE)
  }

  // Go's copy into a fresh zeroed buffer of n bytes.
  function Fit(data: seq<byte>, n: nat): (r: seq<byte>)
    ensures |r| == n
  {
    if |data| <= n then data + Zeros(n - |data|) else data[..n]
  }

  function FitRaw(raw: Option<seq<byte>>, n: nat): (r: seq<byte>)
    ensures |r| == n
  {
    Fit(if raw.Some? then raw.value else [], n)
  }

  function PadName(name: seq<byte>): (r: seq<byte>)
    ensures |r| == 32
  {
    if |name| <= 32 then name + Spaces(32 - |name|) else name[..32]
  }

  predicate Blank(b: byte) {
    b == SPACE || b == 0
  }

  function Trim(s: seq<byte>): (r: seq<byte>)
    ensures r <= s
    ensures r == [] || !Blank(r[|r| - 1])
  {
    if s != [] && Blank(s[|s| - 1]) then Trim(s[..|s| - 1]) else s
  }

  lemma {:induction false} TrimAppendBlanks(s: seq<byte>, blanks: seq<byte>)
    requires forall i :: 0 <= i < |blanks| ==> Blank(blanks[i])
    ensures Trim(s + blanks) == Trim(s)
  {
    if blanks == [] {
      assert s + blanks == s;
    } else {
      var n := |blanks| - 1;
      assert (s + blanks)[..|s + blanks| - 1] == s + blanks[..n];
      TrimAppendBlanks(s, blanks[..n]);
    }
  }

  lemma TrimPadded(name: seq<byte>)
    ensures Trim(PadName(name)) == Trim(if |name| <= 32 then name else name[..32])
  {
    if |name| <= 32 {
      TrimAppendBlanks(name, Spaces(32 - |name|));
    }
  }

  // ---- Marshalling ---------------------------------------------------------

  // The payload Marshal insists on for its three typed packets.
  function Missing(p: Packet): Option<Error> {
    if p.header.typ == KEYBOARD && p.keyboard.None? then Some(KeyboardDataMissing)
    else if p.header.typ == MOUSE && p.mouse.None? then Some(MouseDataMissing)
    else if IsHandshake(p.header.typ) && p.handshake.None? then Some(HandshakeDataMissing)
    else None
  }

  // Bytes 16 and up, before the machine name is laid over bytes 32..63.
  function Body(p: Packet): (r: seq<byte>)
    requires Missing(p).None?
    ensures |r| == FrameSize(p.header.typ) - 16
  {
    var t := p.header.typ;
    if t == KEYBOARD then
      var k := p.keyboard.value;
      Le64(p.header.dateTime) + Le32(ToUint32(k.vk)) + Le32(ToUint32(k.flags))
    else if t == MOUSE then
      var m := p.mouse.value;
      Le32(ToUint32(m.x)) + Le32(ToUint32(m.y)) + Le32(ToUint32(m.wheelDelta)) + Le32(ToUint32(m.flags))
    else if IsHandshake(t) then
      var h := p.handshake.value;
      Le32(h.m1) + Le32(h.m2) + Le32(h.m3) + Le32(h.m4) + Zeros(32)
    else if CarriesChunk(t) then
      FitRaw(p.raw, 48)
    else
      Le64(p.header.dateTime) + FitRaw(p.raw, FrameSize(t) - 24)
  }

  predicate WritesName(p: Packet) {
    IsBigPackage(p.header.typ) && p.name != [] && !CarriesChunk(p.header.typ)
  }

  function NamedBody(p: Packet): (r: seq<byte>)
    requires Missing(p).None?
    ensures |r| == FrameSize(p.header.typ) - 16
  {
    if WritesName(p) then Body(p)[..16] + PadName(p.name) else Body(p)
  }

  // Bytes 4..15.
  function Addressing(h: Header): (r: seq<byte>)
    ensures |r| == 12
  {
    Le32(h.id) + Le32(h.src) + Le32(h.des)
  }

  // Everything after the type and the checksum.
  function Covered(p: Packet, magic: uint32): (r: seq<byte>)
    requires Missing(p).None?
    ensures |r| == FrameSize(p.header.typ) - 2
  {
    [magic / 0x1_0000 % 0x100, magic / 0x100_0000] + Addressing(p.header) + NamedBody(p)
  }

  function Frame(p: Packet, magic: uint32): (f: seq<byte>)
    requires Missing(p).None?
    ensures |f| == FrameSize(p.header.typ)
  {
    var rest := Covered(p, magic);
    [p.header.typ % 0x100, Sum(rest[..30]) % 0x100] + rest
  }

  // What Marshal returns.
  function FrameOf(p: Packet, magic: uint32): Result<seq<byte>, Error> {
    if Missing(p).Some? then Err(Missing(p).value) else Ok(Frame(p, magic))
  }

  // ---- Unmarshalling -------------------------------------------------------

  function Min(a: int, b: int): int {
    if a <= b then a else b
  }

  predicate MagicMatches(b: seq<byte>, magic: uint32)
    requires |b| >= 24
  {
    0x100_0000 * b[3] as int + 0x1_0000 * b[2] as int == magic / 0x1_0000 * 0x1_0000
  }

  predicate ChecksumMatches(b: seq<byte>)
    requires |b| >= 24
  {
    b[1] == Sum(b[2..Min(PACKAGE_SIZE, |b|)]) % 0x100
  }

  predicate Accepted(b: seq<byte>, magic: uint32) {
    |b| >= 24 && MagicMatches(b, magic) && ChecksumMatches(b)
  }

  // The packet Unmarshal builds from an accepted buffer.
  function Decoded(b: seq<byte>): Packet
    requires |b| >= 24
  {
    var t := b[0];
    var head := Header(t, FromLe32(b[4..8]), FromLe32(b[8..12]), FromLe32(b[12..16]), 0);
    var dated := head.(dateTime := FromLe64(b[16..24]));
    var name := if |b| >= PACKAGE_SIZE_EX && !CarriesChunk(t) then Trim(b[32..64]) else [];
    if t == KEYBOARD then
      Packet(dated, if |b| < 32 then None else Some(KeyboardData(ToInt32(FromLe32(b[24..28])), ToInt32(FromLe32(b[28..32])))),
             None, None, name, None)
    else if t == MOUSE then
      Packet(head, None,
             if |b| < 32 then None else
             Some(MouseData(ToInt32(FromLe32(b[16..20])), ToInt32(FromLe32(b[20..24])),
                            ToInt32(FromLe32(b[24..28])), ToInt32(FromLe32(b[28..32])))),
             None, name, None)
    else if IsHandshake(t) then
      Packet(head, None, None,
             if |b| < 32 then None else
             Some(HandshakeData(FromLe32(b[16..20]), FromLe32(b[20..24]), FromLe32(b[24..28]), FromLe32(b[28..32]))),
             name, None)
    else if CarriesChunk(t) then
      Packet(head, None, None, None, name, if |b| < 64 then None else Some(b[16..64]))
    else
      Packet(dated, None, None, None, name, if |b| == 24 then None else Some(b[24..]))
  }

  function ParseFrame(b: seq<byte>, magic: uint32): Result<Packet, Error> {
    if |b| < 24 then Err(BufferTooSmall)
    else if !MagicMatches(b, magic) then Err(InvalidMagic)
    else if !ChecksumMatches(b) then Err(InvalidChecksum)
    else Ok(Decoded(b))
  }

  // ---- What survives a trip over the wire ----------------------------------

  // The frame's type byte tells the reader how long the frame is.
  predicate SelfFraming(f: seq<byte>) {
    |f| > 0 && |f| == FrameSize(f[0])
  }

  // Bytes 24 and up of an untyped packet's frame.
  function RawRegion(p: Packet): (r: seq<byte>)
    ensures |r| == FrameSize(p.header.typ) - 24
  {
    var r := FitRaw(p.raw, FrameSize(p.header.typ) - 24);
    if WritesName(p) then r[..8] + PadName(p.name) else r
  }

  // The packet the peer receives: fields the type has no room for are gone,
  // the name is cut to 32 bytes and trimmed, raw data is padded.
  function NormalForm(p: Packet): Packet {
    var t := p.header.typ;
    var undated := p.header.(dateTime := 0);
    if t == KEYBOARD then Packet(p.header, p.keyboard, None, None, [], None)
    else if t == MOUSE then Packet(undated, None, p.mouse, None, [], None)
    else if IsHandshake(t) then
      Packet(undated, None, None, p.handshake, Trim(PadName(p.name)), None)
    else if CarriesChunk(t) then Packet(undated, None, None, None, [], Some(FitRaw(p.raw, 48)))
    else
      var region := RawRegion(p);
      Packet(p.header, None, None, None,
             if IsBigPackage(t) then Trim(region[8..]) else [], Some(region))
  }
}
