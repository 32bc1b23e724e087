/** Clipboard text: formatted, encoded, compressed and cut up on one side,
    reassembled, inflated, decoded and parsed on the other. */
module Clipboard {
  import opened Wrappers
  import opened Bytes
  import opened Protocol
  import opened Utf8
  import Guid
  import Session

  const CHUNK: nat := 48

  /** compress/flate, with inflate failing on what is no deflate stream. */
  datatype Flate = Flate(deflate: seq<byte> -> seq<byte>, inflate: seq<byte> -> Option<seq<byte>>)

  // A deflate stream says where it ends (the final-block bit, section 3.2.3 of
  // RFC 1951), so bytes after it change nothing.
  ghost predicate Lossless(z: Flate) {
    forall x: seq<byte>, tail: seq<byte> :: z.inflate(z.deflate(x) + tail) == Some(x)
  }

  // ---- Sending -------------------------------------------------------------

  // A code unit at twice the rune's byte offset, zeros where the offset skips.
  function Holed(s: seq<byte>): (r: seq<byte>)
    ensures |r| == 2 * |s|
    decreases |s|
  {
    if s == [] then []
    else
      var d := DecodeRune(s);
      UnitAt(d) + Holed(s[d.width..])
  }

  function Packed(z: Flate, text: seq<byte>): seq<byte> {
    var utf16 := Holed(Guid.Generate(text));
    if |utf16| > CHUNK then z.deflate(utf16) else utf16
  }

  function UnitAt(d: Decoded): (r: seq<byte>)
    requires d.width >= 1
    ensures |r| == 2 * d.width
  {
    [d.r % 0x100, d.r / 0x100 % 0x100] + Zeros(2 * (d.width - 1))
  }

  // The encoding loop from byte offset i of the string on; utf16 is the buffer
  // it fills.
  function FillFrom(s: seq<byte>, i: nat, utf16: seq<byte>): seq<byte>
    requires i <= |s| && |utf16| == 2 * |s|
    decreases |s| - i
  {
    if i == |s| then utf16
    else
      var d := DecodeRune(s[i..]);
      FillFrom(s, i + d.width, utf16[2 * i := d.r % 0x100][2 * i + 1 := d.r / 0x100 % 0x100])
  }

  // Writing one code unit over a zeroed tail.
  lemma UnitOverZeros(done: seq<byte>, n: nat, d: Decoded)
    requires 1 <= d.width && 2 * d.width <= n
    ensures (done + Zeros(n))[|done| := d.r % 0x100][|done| + 1 := d.r / 0x100 % 0x100]
            == (done + UnitAt(d)) + Zeros(n - 2 * d.width)
  {
  }

  lemma {:induction false} FillIsHoled(s: seq<byte>, i: nat, done: seq<byte>)
    requires i <= |s| && |done| == 2 * i
    ensures FillFrom(s, i, done + Zeros(2 * (|s| - i))) == done + Holed(s[i..])
    decreases |s| - i
  {
    if i == |s| {
      assert done + Zeros(0) == done == done + [];
    } else {
      var d := DecodeRune(s[i..]);
      UnitOverZeros(done, 2 * (|s| - i), d);
      FillIsHoled(s, i + d.width, done + UnitAt(d));
      DropDrop(s, i, d.width);
      Associative(done, UnitAt(d), Holed(s[i + d.width..]));
    }
  }

  method EncodeUtf16(formatted: seq<byte>) returns (utf16: seq<byte>)
    ensures utf16 == Holed(formatted)
  {
    utf16 := Zeros(2 * |formatted|);
    var i := 0;
    while i < |formatted|
      invariant 0 <= i <= |formatted| && |utf16| == 2 * |formatted|
      invariant FillFrom(formatted, i, utf16) == FillFrom(formatted, 0, Zeros(2 * |formatted|))
      decreases |formatted| - i
    {
      var d := DecodeRune(formatted[i..]);
      utf16 := utf16[2 * i := d.r % 0x100][2 * i + 1 := d.r / 0x100 % 0x100];
      i := i + d.width;
    }
    FillIsHoled(formatted, 0, []);
    NothingInFront(formatted);
  }

  lemma NothingInFront(s: seq<byte>)
    ensures s[0..] == s
    ensures [] + Holed(s) == Holed(s)
    ensures [] + Zeros(2 * |s|) == Zeros(2 * |s|)
  {
  }

  lemma DropDrop<T>(s: seq<T>, i: nat, j: nat)
    requires i + j <= |s|
    ensures s[i..][j..] == s[i + j..]
  {
  }

  method FormatClipboardText(z: Flate, text: seq<byte>) returns (data: seq<byte>)
    ensures data == Packed(z, text)
  {
    var formatted := Guid.Generate(text);
    var utf16 := EncodeUtf16(formatted);
    if |utf16| > CHUNK {
      return z.deflate(utf16);
    }
    data := utf16;
  }

  datatype Outgoing = Outgoing(typ: uint32, payload: Session.Payload)

  function Chunks(data: seq<byte>): seq<seq<byte>> {
    if data == [] then []
    else if |data| <= CHUNK then [data]
    else [data[..CHUNK]] + Chunks(data[CHUNK..])
  }

  function ChunkSends(chunks: seq<seq<byte>>): seq<Outgoing> {
    seq(|chunks|, i requires 0 <= i < |chunks| => Outgoing(CLIPBOARD_TEXT, Session.BytesPayload(chunks[i])))
  }

  // The packets of one transfer.
  function Transfer(data: seq<byte>): seq<Outgoing> {
    ChunkSends(Chunks(data)) + [Outgoing(CLIPBOARD_DATA_END, Session.NoPayload)]
  }

  lemma ChunksStep(data: seq<byte>, i: nat)
    requires i < |data|
    ensures var end := Min(i + CHUNK, |data|);
      ChunkSends(Chunks(data[i..]))
      == [Outgoing(CLIPBOARD_TEXT, Session.BytesPayload(data[i..end]))] + ChunkSends(Chunks(data[end..]))
  {
    var tail := data[i..];
    if |tail| <= CHUNK {
      assert data[i..|data|] == tail;
      assert data[|data|..] == [];
    } else {
      assert tail[..CHUNK] == data[i..i + CHUNK];
      DropDrop(data, i, CHUNK);
    }
  }

  // The OnChange callback: what it hands to the session sender, in order.
  method OnChange(z: Flate, content: seq<byte>) returns (sends: seq<Outgoing>)
    ensures sends == Transfer(Packed(z, content))
  {
    var formatted := FormatClipboardText(z, content);
    sends := [];
    var i := 0;
    assert formatted[0..] == formatted;
    while i < |formatted|
      invariant 0 <= i
      invariant sends + ChunkSends(Chunks(formatted[Min(i, |formatted|)..])) == ChunkSends(Chunks(formatted))
    {
      var end := Min(i + CHUNK, |formatted|);
      var chunk := formatted[i..end];
      ChunksStep(formatted, i);
      Associative(sends, [Outgoing(CLIPBOARD_TEXT, Session.BytesPayload(chunk))], ChunkSends(Chunks(formatted[end..])));
      sends := sends + [Outgoing(CLIPBOARD_TEXT, Session.BytesPayload(chunk))];
      i := i + CHUNK;
    }
    assert sends + [] == sends;
    sends := sends + [Outgoing(CLIPBOARD_DATA_END, Session.NoPayload)];
  }

  // ---- Receiving -----------------------------------------------------------

  // The two clipboard variables of receiveLoop.
  datatype Inbox = Inbox(buffer: seq<byte>, receiving: bool)

  const EMPTY: Inbox := Inbox([], false)

  function Receive(b: Inbox, p: Packet): Inbox {
    if p.header.typ == CLIPBOARD_TEXT && p.raw.Some? then Inbox(b.buffer + p.raw.value, true)
    else if p.header.typ == CLIPBOARD_DATA_END && b.receiving && b.buffer != [] then EMPTY
    else b
  }

  // The buffers handed on for decoding: none or one.
  function Delivered(b: Inbox, p: Packet): seq<seq<byte>> {
    if p.header.typ == CLIPBOARD_DATA_END && b.receiving && b.buffer != [] then [b.buffer] else []
  }

  function Deliveries(b: Inbox, ps: seq<Packet>): seq<seq<byte>>
    decreases |ps|
  {
    if ps == [] then [] else Delivered(b, ps[0]) + Deliveries(Receive(b, ps[0]), ps[1..])
  }

  // The code units, zero units dropped.
  function Units(d: seq<byte>): seq<rune> {
    if |d| < 2 then []
    else
      var u := d[0] + 0x100 * d[1] as int;
      (if u != 0 then [u] else []) + Units(d[2..])
  }

  function Inflated(z: Flate, data: seq<byte>): seq<byte> {
    if |data| > 10 && z.inflate(data).Some? then z.inflate(data).value else data
  }

  function DecodedText(raw: seq<byte>): seq<byte> {
    if |raw| >= 2 && raw[1] == 0 then Encode(Units(raw)) else raw
  }

  // decompressAndParseClipboard
  function Unpacked(z: Flate, data: seq<byte>): seq<byte> {
    if data == [] then [] else Guid.Parse(DecodedText(Inflated(z, data)))
  }

  method DecodeUtf16(raw: seq<byte>) returns (runes: seq<rune>)
    ensures runes == Units(raw)
  {
    runes := [];
    var i := 0;
    while i < |raw| - 1
      invariant 0 <= i <= |raw|
      invariant runes + Units(raw[i..]) == Units(raw)
    {
      var r := raw[i] as int + 0x100 * raw[i + 1] as int;
      assert raw[i..][2..] == raw[i + 2..];
      ghost var before := runes;
      if r != 0 {
        runes := runes + [r];
        Associative(before, [r], Units(raw[i + 2..]));
      }
      i := i + 2;
    }
  }

  method DecompressAndParseClipboard(z: Flate, data: seq<byte>) returns (text: seq<byte>)
    ensures text == Unpacked(z, data)
  {
    if |data| == 0 {
      return [];
    }
    var decompressed := data;
    if |data| > 10 {
      var inflated := z.inflate(data);
      if inflated.Some? {
        decompressed := inflated.value;
      }
    }
    var decoded := decompressed;
    if |decompressed| >= 2 && decompressed[1] == 0 {
      var runes := DecodeUtf16(decompressed);
      decoded := Encode(runes);
    }
    text := Guid.Parse(decoded);
  }

  // What reaches the system clipboard: an empty text is not set.
  function Texts(z: Flate, buffers: seq<seq<byte>>): seq<seq<byte>> {
    if buffers == [] then []
    else
      var text := Unpacked(z, buffers[0]);
      (if text != [] then [text] else []) + Texts(z, buffers[1..])
  }

  /** The clipboard part of receiveLoop. */
  class Receiver {
    const z: Flate
    var clipboardBuffer: seq<byte>
    var receivingClipboard: bool
    var clipboard: seq<seq<byte>>  // every SetText so far

    constructor (z: Flate)
      ensures this.z == z && State() == EMPTY && clipboard == []
    {
      this.z := z;
      clipboardBuffer, receivingClipboard, clipboard := [], false, [];
    }

    function State(): Inbox
      reads this
    {
      Inbox(clipboardBuffer, receivingClipboard)
    }

    method HandlePacket(p: Packet)
      modifies this
      ensures State() == Receive(old(State()), p)
      ensures clipboard == old(clipboard) + Texts(z, Delivered(old(State()), p))
    {
      if p.header.typ == CLIPBOARD_TEXT {
        if p.raw.Some? {
          clipboardBuffer := clipboardBuffer + p.raw.value;
          receivingClipboard := true;
        }
      } else if p.header.typ == CLIPBOARD_DATA_END {
        if receivingClipboard && |clipboardBuffer| > 0 {
          var text := DecompressAndParseClipboard(z, clipboardBuffer);
          assert Texts(z, [clipboardBuffer]) == (if text != [] then [text] else []) + Texts(z, []);
          if text != [] {
            clipboard := clipboard + [text];
          }
          clipboardBuffer := [];
          receivingClipboard := false;
        }
      }
    }
  }
}
