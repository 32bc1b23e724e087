/** The clipboard pipeline end to end. */
module ClipboardProofs {
  import opened Wrappers
  import opened Bytes
  import opened Protocol
  import opened Utf8
  import opened Cipher
  import opened Clipboard
  import Guid
  import Session
  import Channel

  // ---- Encoding and decoding -----------------------------------------------

  // What a rune becomes on the way: cut to 16 bits, dropped if that is zero,
  // replaced if that is half a surrogate pair.
  function Kept(rs: seq<rune>): seq<rune> {
    if rs == [] then []
    else
      var u := rs[0] % 0x1_0000;
      (if u == 0 then [] else if Surrogate(u) then [RUNE_ERROR] else [u]) + Kept(rs[1..])
  }

  lemma UnitsCons(lo: byte, hi: byte, rest: seq<byte>)
    ensures Units([lo, hi] + rest)
            == (if lo + 0x100 * (hi as int) != 0 then [lo + 0x100 * (hi as int)] else []) + Units(rest)
  {
    assert ([lo, hi] + rest)[2..] == rest;
  }

  lemma {:induction false} UnitsSkipHoles(k: nat, rest: seq<byte>)
    ensures Units(Zeros(2 * k) + rest) == Units(rest)
  {
    if k == 0 {
      assert Zeros(0) + rest == rest;
    } else {
      assert Zeros(2 * k) + rest == [0, 0] + (Zeros(2 * (k - 1)) + rest);
      UnitsCons(0, 0, Zeros(2 * (k - 1)) + rest);
      UnitsSkipHoles(k - 1, rest);
    }
  }

  lemma RuneLow16(r: rune)
    ensures r % 0x100 + 0x100 * (r / 0x100 % 0x100) == r % 0x1_0000
  {
  }

  // Reading back the holed encoding: the holes vanish, although the encoder
  // wrote at byte offsets.  For every byte string.
  lemma {:induction false} DecodesHoled(s: seq<byte>)
    ensures Encode(Units(Holed(s))) == Encode(Kept(Runes(s)))
    decreases |s|
  {
    if s == [] {
    } else {
      var d := DecodeRune(s);
      var rest := Holed(s[d.width..]);
      var u := d.r % 0x1_0000;
      DecodesHoled(s[d.width..]);
      RuneLow16(d.r);
      Associative([d.r % 0x100, d.r / 0x100 % 0x100], Zeros(2 * (d.width - 1)), rest);
      UnitsCons(d.r % 0x100, d.r / 0x100 % 0x100, Zeros(2 * (d.width - 1)) + rest);
      UnitsSkipHoles(d.width - 1, rest);
      assert Units(Holed(s)) == (if u != 0 then [u] else []) + Units(rest);
      assert Runes(s) == [d.r] + Runes(s[d.width..]);
      KeptCons(d.r, Runes(s[d.width..]));
      if u != 0 {
        EncodeCons(u, Units(rest));
        EncodeCons(if Surrogate(u) then RUNE_ERROR else u, Kept(Runes(s[d.width..])));
      } else {
        assert [] + Units(rest) == Units(rest);
      }
    }
  }

  lemma KeptCons(r: rune, rs: seq<rune>)
    ensures var u := r % 0x1_0000;
      Kept([r] + rs) == (if u == 0 then [] else if Surrogate(u) then [RUNE_ERROR] else [u]) + Kept(rs)
    ensures r % 0x1_0000 == 0 ==> Kept([r] + rs) == Kept(rs)
  {
    assert ([r] + rs)[1..] == rs;
  }

  lemma EncodeCons(r: rune, rs: seq<rune>)
    ensures Encode([r] + rs) == EncodeRune(r) + Encode(rs)
    ensures EncodeRune(RUNE_ERROR) == [0xEF, 0xBF, 0xBD]
  {
    assert ([r] + rs)[1..] == rs;
  }

  lemma {:induction false} KeptAppend(a: seq<rune>, b: seq<rune>)
    ensures Kept(a + b) == Kept(a) + Kept(b)
    decreases |a|
  {
    if a == [] {
      assert a + b == b;
    } else {
      KeptAppend(a[1..], b);
      TakeDropAppend(a, b, 1);
      assert a + b == [a[0]] + (a[1..] + b) && a == [a[0]] + a[1..];
      KeptCons(a[0], a[1..] + b);
      KeptCons(a[0], a[1..]);
    }
  }

  lemma {:induction false} KeptAscii(s: seq<byte>)
    requires Ascii(s)
    ensures Kept(s) == s
    decreases |s|
  {
    if s == [] {
    } else {
      KeptAscii(s[1..]);
    }
  }

  lemma FrameIsAscii()
    ensures Ascii(Guid.TXT) && Ascii(Guid.SEPARATOR)
  {
  }

  // The text between prefix and separator as it comes out of the decoder.
  function Through(text: seq<byte>): seq<byte> {
    Encode(Kept(Runes(text)))
  }

  lemma AsciiThrough(s: seq<byte>)
    requires Ascii(s)
    ensures Encode(Kept(Runes(s))) == s
  {
    RunesOfAscii(s);
    KeptAscii(s);
    EncodeAscii(s);
  }

  lemma ThroughAppend(a: seq<byte>, b: seq<byte>)
    requires b == [] || b[0] < 0x80
    ensures Through(a + b) == Through(a) + Through(b)
  {
    RunesSplitAtAscii(a, b);
    KeptAppend(Runes(a), Runes(b));
    EncodeAppend(Kept(Runes(a)), Kept(Runes(b)));
  }

  lemma {:induction false} RunesAfterAscii(a: seq<byte>, b: seq<byte>)
    requires Ascii(a)
    ensures Runes(a + b) == a + Runes(b)
    decreases |a|
  {
    if a == [] {
      assert a + b == b && a + Runes(b) == Runes(b);
    } else {
      RunesAfterAscii(a[1..], b);
      TakeDropAppend(a, b, 1);
      assert (a + b)[0] == a[0];
      assert a + Runes(b) == [a[0]] + (a[1..] + Runes(b));
    }
  }

  lemma FramedThrough(format: seq<byte>, text: seq<byte>)
    requires Ascii(format)
    ensures Through(format + text + Guid.SEPARATOR) == format + Through(text) + Guid.SEPARATOR
  {
    FrameIsAscii();
    ThroughAppend(format + text, Guid.SEPARATOR);
    AsciiThrough(Guid.SEPARATOR);
    RunesAfterAscii(format, text);
    KeptAppend(format, Runes(text));
    KeptAscii(format);
    EncodeAppend(format, Kept(Runes(text)));
    EncodeAscii(format);
  }

  lemma GeneratedThrough(text: seq<byte>)
    ensures Through(Guid.Generate(text)) == Guid.Generate(Through(text))
  {
    FrameIsAscii();
    FramedThrough(Guid.TXT, text);
  }

  lemma {:induction false} KeptNoNul(rs: seq<rune>)
    ensures forall i :: 0 <= i < |Kept(rs)| ==> Kept(rs)[i] != 0
    ensures Scalars(Kept(rs))
    decreases |rs|
  {
    if rs == [] {
    } else {
      KeptNoNul(rs[1..]);
    }
  }

  // ---- Padding and compression ---------------------------------------------

  function Short(n: nat): nat {
    (CHUNK - n % CHUNK) % CHUNK
  }

  // The buffer at the end of a transfer: zeros up to the next multiple of 48.
  function Padded(data: seq<byte>): (r: seq<byte>)
    ensures |r| % CHUNK == 0 && |r| < |data| + CHUNK && data <= r
  {
    data + Zeros(Short(|data|))
  }

  lemma DeflateIsNotEmpty(z: Flate, x: seq<byte>)
    requires Lossless(z)
    ensures z.deflate(x) != []
  {
    var y := x + [0];
    assert z.inflate(z.deflate(x) + z.deflate(y)) == Some(x);
    assert z.inflate(z.deflate(y) + []) == Some(y);
    assert z.deflate(y) + [] == z.deflate(y);
    assert z.deflate(x) == [] ==> z.deflate(x) + z.deflate(y) == z.deflate(y);
  }

  // The wrapper alone is 41 bytes, so the uncompressed branch is never taken.
  lemma AlwaysCompressed(z: Flate, text: seq<byte>)
    ensures Packed(z, text) == z.deflate(Holed(Guid.Generate(text)))
  {
  }

  lemma PaddingIsHarmless(z: Flate, text: seq<byte>)
    requires Lossless(z)
    ensures Packed(z, text) != []
    ensures Inflated(z, Padded(Packed(z, text))) == Holed(Guid.Generate(text))
  {
    var x := Holed(Guid.Generate(text));
    DeflateIsNotEmpty(z, x);
    AlwaysCompressed(z, text);
    var data := z.deflate(x);
    assert |Padded(data)| >= CHUNK;
    assert z.inflate(data + Zeros(Short(|data|))) == Some(x);
  }

  // ---- What arrives, for every text ----------------------------------------

  lemma WhatArrives(z: Flate, text: seq<byte>)
    requires Lossless(z)
    ensures Unpacked(z, Padded(Packed(z, text))) == Guid.BeforeFirst(Through(text))
  {
    var generated := Guid.Generate(text);
    var raw := Holed(generated);
    PaddingIsHarmless(z, text);
    TextStartsWide(text);
    DecodesHoled(generated);
    GeneratedThrough(text);
    var arrived := Through(text);
    Guid.ParseGenerated(arrived, []);
    assert Guid.Generate(arrived) + [] == Guid.Generate(arrived);
    KeptNoNul(Runes(text));
    NoNulBytes(Kept(Runes(text)));
    var cut := Guid.BeforeFirst(arrived);
    assert cut != [] ==> cut[|cut| - 1] == arrived[|cut| - 1];
  }

  lemma TextStartsWide(text: seq<byte>)
    ensures var raw := Holed(Guid.Generate(text)); |raw| >= 2 && raw[1] == 0
  {
    var generated := Guid.Generate(text);
    assert generated[0] == 0x54;
    assert DecodeRune(generated) == Decoded(0x54, 1);
  }

  // ---- Whatever another implementation sends -------------------------------

  lemma {:induction false} UnitsEndInHoles(raw: seq<byte>, k: nat)
    requires |raw| % 2 == 0
    ensures Units(raw + Zeros(2 * k)) == Units(raw)
    decreases |raw|
  {
    if raw == [] {
      assert raw + Zeros(2 * k) == Zeros(2 * k) + [];
      UnitsSkipHoles(k, []);
    } else {
      UnitsEndInHoles(raw[2..], k);
      assert raw == [raw[0], raw[1]] + raw[2..];
      assert raw + Zeros(2 * k) == [raw[0], raw[1]] + (raw[2..] + Zeros(2 * k));
      UnitsCons(raw[0], raw[1], raw[2..] + Zeros(2 * k));
      UnitsCons(raw[0], raw[1], raw[2..]);
    }
  }

  // A received string: one of the four formats, a text and the separator.
  function Framed(format: seq<byte>, text: seq<byte>): seq<byte> {
    format + text + Guid.SEPARATOR
  }

  lemma FormatIsAscii(format: seq<byte>)
    requires Guid.IsFormat(format)
    ensures Ascii(format) && |format| == 3
  {
    Guid.FormatsSpelled(format);
  }

  // Taken as it is, zeros and all, when it does not look like UTF-16.
  lemma NarrowDecodes(format: seq<byte>, text: seq<byte>, zeros: seq<byte>)
    requires Guid.IsFormat(format)
    ensures Guid.Parse(DecodedText(Framed(format, text) + zeros)) == Guid.TrimNul(Guid.BeforeFirst(text))
  {
    FormatIsAscii(format);
    var raw := Framed(format, text) + zeros;
    assert raw[1] == format[1];
    Guid.ParseAnyFormat(format, text, zeros);
  }

  lemma AsciiUnit(r: byte)
    requires r < 0x80
    ensures UnitAt(Decoded(r, 1)) == [r, 0]
  {
  }

  lemma WideStart(s: seq<byte>)
    requires s != [] && s[0] < 0x80
    ensures |Holed(s)| >= 2 && Holed(s)[1] == 0
  {
    var d := DecodeRune(s);
    assert d == Decoded(s[0], 1);
    AsciiUnit(s[0]);
    var rest := Holed(s[1..]);
    assert Holed(s) == [s[0], 0] + rest;
  }

  lemma WideDecodes(format: seq<byte>, text: seq<byte>, zeros: seq<byte>, k: nat)
    requires Guid.IsFormat(format) && zeros == Zeros(2 * k)
    ensures Guid.Parse(DecodedText(Holed(Framed(format, text)) + zeros)) == Guid.BeforeFirst(Through(text))
  {
    FormatIsAscii(format);
    var s := Framed(format, text);
    var raw := Holed(s) + zeros;
    assert s[0] == format[0];
    WideStart(s);
    assert raw[1] == Holed(s)[1];
    UnitsEndInHoles(Holed(s), k);
    DecodesHoled(s);
    FramedThrough(format, text);
    Guid.ParseAnyFormat(format, Through(text), []);
    assert format + Through(text) + Guid.SEPARATOR + [] == format + Through(text) + Guid.SEPARATOR;
    KeptNoNul(Runes(text));
    NoNulBytes(Kept(Runes(text)));
    var cut := Guid.BeforeFirst(Through(text));
    assert cut != [] ==> cut[|cut| - 1] == Through(text)[|cut| - 1];
  }

  // A buffer of up to ten bytes, or one that does not inflate, is taken as it is,
  // and any other as what it inflates to.
  lemma InflatesFirst(z: Flate, data: seq<byte>)
    ensures var plain := Flate(z.deflate, _ => None);
      Unpacked(z, data) ==
        if |data| >= 11 && z.inflate(data).Some? then Unpacked(plain, z.inflate(data).value) else Unpacked(plain, data)
  {
    assert Units([]) == [] && DecodedText([]) == [] && Guid.Parse([]) == [];
  }

  // A compressed transfer inflates to what was compressed.
  lemma CompressedArrives(z: Flate, raw: seq<byte>)
    requires Lossless(z) && raw != []
    ensures Unpacked(z, Padded(z.deflate(raw))) == Guid.Parse(DecodedText(raw))
  {
    DeflateIsNotEmpty(z, raw);
    var data := z.deflate(raw);
    assert |Padded(data)| >= CHUNK;
    assert z.inflate(data + Zeros(Short(|data|))) == Some(raw);
  }

  lemma UncompressedArrives(z: Flate, raw: seq<byte>)
    requires raw != [] && z.inflate(Padded(raw)).None?
    ensures Unpacked(z, Padded(raw)) == Guid.Parse(DecodedText(raw + Zeros(Short(|raw|))))
  {
  }

  lemma EvenShort(n: nat)
    requires n % 2 == 0
    ensures 2 * (Short(n) / 2) == Short(n)
  {
  }

  // What a receiver makes of a framed text, as UTF-16 or as it is.
  function Written(format: seq<byte>, text: seq<byte>, wide: bool): (raw: seq<byte>)
    ensures |raw| > 10
  {
    if wide then Holed(Framed(format, text)) else Framed(format, text)
  }

  function Pasted(text: seq<byte>, wide: bool): seq<byte> {
    if wide then Guid.BeforeFirst(Through(text)) else Guid.TrimNul(Guid.BeforeFirst(text))
  }

  lemma WrittenDecodes(format: seq<byte>, text: seq<byte>, wide: bool, zeros: seq<byte>, k: nat)
    requires Guid.IsFormat(format) && (wide ==> zeros == Zeros(2 * k))
    ensures Guid.Parse(DecodedText(Written(format, text, wide) + zeros)) == Pasted(text, wide)
  {
    if wide {
      WideDecodes(format, text, zeros, k);
    } else {
      NarrowDecodes(format, text, zeros);
    }
  }

  lemma EvenWhenWide(format: seq<byte>, text: seq<byte>)
    ensures var n := |Written(format, text, true)|; Zeros(Short(n)) == Zeros(2 * (Short(n) / 2))
  {
    EvenShort(|Written(format, text, true)|);
  }

  // Any of the four formats, as UTF-8 or as UTF-16, compressed or not, in chunks of
  // 48 bytes: as UTF-16 what is pasted is what this code's own texts give; as UTF-8
  // it is the text up to its first separator without the NULs at its end.
  lemma CompressedFormatArrives(z: Flate, format: seq<byte>, text: seq<byte>, wide: bool)
    requires Lossless(z) && Guid.IsFormat(format)
    ensures Unpacked(z, Padded(z.deflate(Written(format, text, wide)))) == Pasted(text, wide)
  {
    var raw := Written(format, text, wide);
    CompressedArrives(z, raw);
    WrittenDecodes(format, text, wide, Zeros(0), 0);
    assert raw + Zeros(0) == raw;
  }

  lemma UncompressedFormatArrives(z: Flate, format: seq<byte>, text: seq<byte>, wide: bool)
    requires Guid.IsFormat(format) && z.inflate(Padded(Written(format, text, wide))).None?
    ensures Unpacked(z, Padded(Written(format, text, wide))) == Pasted(text, wide)
  {
    var raw := Written(format, text, wide);
    if wide {
      EvenWhenWide(format, text);
    }
    UncompressedArrives(z, raw);
    WrittenDecodes(format, text, wide, Zeros(Short(|raw|)), Short(|raw|) / 2);
  }

  // ---- Where the code units go ---------------------------------------------

  lemma HoledCons(rs: seq<rune>)
    requires rs != [] && !Surrogate(rs[0])
    ensures Holed(Encode(rs)) == UnitAt(Decoded(rs[0], |EncodeRune(rs[0])|)) + Holed(Encode(rs[1..]))
  {
    DecodesEncoded(rs[0], Encode(rs[1..]));
  }

  lemma OffsetCons(rs: seq<rune>, k: nat)
    requires 0 < k <= |rs|
    ensures |Encode(rs[..k])| == |EncodeRune(rs[0])| + |Encode(rs[1..][..k - 1])|
  {
    assert rs[..k][0] == rs[0] && rs[..k][1..] == rs[1..][..k - 1];
  }

  // The low 16 bits of r at this place, low byte first, and zeros to the next.
  predicate UnitStands(raw: seq<byte>, at: nat, r: rune) {
    && at + 2 * |EncodeRune(r)| <= |raw|
    && raw[at] as int + 0x100 * raw[at + 1] as int == r % 0x1_0000
    && forall j :: at + 2 <= j < at + 2 * |EncodeRune(r)| ==> raw[j] == 0
  }

  lemma StandsFirst(r: rune, rest: seq<byte>)
    ensures UnitStands(UnitAt(Decoded(r, |EncodeRune(r)|)) + rest, 0, r)
  {
    RuneLow16(r);
    var unit := UnitAt(Decoded(r, |EncodeRune(r)|));
    assert forall j :: 2 <= j < |unit| ==> unit[j] == 0;
  }

  lemma StandsLater(whole: seq<byte>, a: seq<byte>, b: seq<byte>, at: nat, later: nat, r: rune)
    requires whole == a + b && later == |a| + at && UnitStands(b, at, r)
    ensures UnitStands(whole, later, r)
  {
    forall j | |a| <= j < |a| + |b|
      ensures (a + b)[j] == b[j - |a|]
    {
    }
  }

  lemma UnitsLater(rs: seq<rune>, k: nat, raw: seq<byte>, at: nat)
    requires 0 < k < |rs| && !Surrogate(rs[0])
    requires raw == Holed(Encode(rs[1..])) && at == 2 * |Encode(rs[1..][..k - 1])| && UnitStands(raw, at, rs[k])
    ensures UnitStands(Holed(Encode(rs)), 2 * |Encode(rs[..k])|, rs[k])
  {
    HoledCons(rs);
    OffsetCons(rs, k);
    var unit := UnitAt(Decoded(rs[0], |EncodeRune(rs[0])|));
    StandsLater(Holed(Encode(rs)), unit, raw, at, 2 * |Encode(rs[..k])|, rs[k]);
  }

  // At twice the offset of each rune's first octet stands the rune's low 16 bits;
  // the places of its other octets are zero.
  lemma {:induction false} UnitsAtOffsets(rs: seq<rune>, k: nat)
    requires Scalars(rs) && k < |rs|
    ensures UnitStands(Holed(Encode(rs)), 2 * |Encode(rs[..k])|, rs[k])
    decreases k
  {
    if k == 0 {
      HoledCons(rs);
      assert rs[..0] == [];
      StandsFirst(rs[0], Holed(Encode(rs[1..])));
    } else {
      UnitsAtOffsets(rs[1..], k - 1);
      UnitsLater(rs, k, Holed(Encode(rs[1..])), 2 * |Encode(rs[1..][..k - 1])|);
    }
  }

  // The texts the pipeline is made for: valid UTF-8 without NUL, without
  // anything outside the basic plane, and without the separator.
  predicate Plain(rs: seq<rune>) {
    forall i :: 0 <= i < |rs| ==> 0 < rs[i] < 0x1_0000 && !Surrogate(rs[i])
  }

  ghost predicate Transparent(text: seq<byte>) {
    (exists rs: seq<rune> :: Plain(rs) && text == Encode(rs)) && !Guid.Contains(text, Guid.SEPARATOR)
  }

  lemma {:induction false} KeptPlain(rs: seq<rune>)
    requires Plain(rs)
    ensures Kept(rs) == rs
    decreases |rs|
  {
    if rs == [] {
    } else {
      var first, rest := rs[0], rs[1..];
      PlainRest(rs);
      KeptPlain(rest);
      assert first % 0x1_0000 == first;
      KeptCons(first, rest);
      assert rs == [first] + rest;
    }
  }

  lemma PlainRest(rs: seq<rune>)
    requires Plain(rs) && rs != []
    ensures 0 < rs[0] < 0x1_0000 && !Surrogate(rs[0]) && Plain(rs[1..])
  {
  }

  // What one rune becomes is no longer than it was, and shorter if it changed.
  lemma KeptOne(r: rune)
    requires !Surrogate(r)
    ensures |Encode(Kept([r]))| <= |EncodeRune(r)|
    ensures |Encode(Kept([r]))| == |EncodeRune(r)| ==> 0 < r < 0x1_0000
  {
    var u := r % 0x1_0000;
    KeptCons(r, []);
    assert [r] + [] == [r];
    if u != 0 {
      var v := if Surrogate(u) then RUNE_ERROR else u;
      assert Kept([r]) == [v] + [];
      EncodeCons(v, []);
    }
  }

  lemma {:induction false} KeptShrinks(rs: seq<rune>)
    requires Scalars(rs)
    ensures |Encode(Kept(rs))| <= |Encode(rs)|
    ensures |Encode(Kept(rs))| == |Encode(rs)| ==> Plain(rs)
    decreases |rs|
  {
    if rs == [] {
    } else {
      var first, rest := rs[0], rs[1..];
      KeptShrinks(rest);
      KeptOne(first);
      assert rs == [first] + rest;
      KeptAppend([first], rest);
      EncodeAppend(Kept([first]), Kept(rest));
    }
  }

  lemma CutIsValid(arrived: seq<byte>, rs: seq<rune>) returns (n: nat)
    requires arrived == Encode(rs)
    ensures n <= |rs| && Guid.BeforeFirst(arrived) == Encode(rs[..n])
  {
    Guid.IndexIsFirst(arrived, Guid.SEPARATOR);
    var i := Guid.Index(arrived, Guid.SEPARATOR);
    if i < 0 {
      n := |rs|;
      assert rs[..n] == rs;
    } else {
      assert arrived[i..i + |Guid.SEPARATOR|][0] == Guid.SEPARATOR[0] == 0x7B;
      n := CutAtAscii(rs, i);
    }
  }

  lemma TransparentArrives(text: seq<byte>)
    requires Transparent(text)
    ensures Guid.BeforeFirst(Through(text)) == text
  {
    var rs: seq<rune> :| Plain(rs) && text == Encode(rs);
    RunesOfEncoded(rs);
    KeptPlain(rs);
  }

  lemma ArrivesOnlyTransparent(text: seq<byte>)
    requires Guid.BeforeFirst(Through(text)) == text
    ensures Transparent(text)
  {
    var all := Kept(Runes(text));
    KeptNoNul(Runes(text));
    var n := CutIsValid(Encode(all), all);
    var rs := all[..n];
    RunesOfEncoded(rs);  // so text, being Encode(rs), decodes to rs, and all is Kept(rs)
    KeptShrinks(rs);
    assert |Encode(all)| <= |text|;
    NothingCut(Through(text));
  }

  lemma NothingCut(s: seq<byte>)
    ensures |Guid.BeforeFirst(s)| >= |s| ==> Guid.BeforeFirst(s) == s && !Guid.Contains(s, Guid.SEPARATOR)
  {
    Guid.IndexIsFirst(s, Guid.SEPARATOR);
  }

  // A text of any bytes whatever arrives unchanged if and only if it is one of
  // the transparent ones.
  lemma ArrivesIff(z: Flate, text: seq<byte>)
    requires Lossless(z)
    ensures Unpacked(z, Padded(Packed(z, text))) == text <==> Transparent(text)
  {
    WhatArrives(z, text);
    if Transparent(text) {
      TransparentArrives(text);
    }
    if Guid.BeforeFirst(Through(text)) == text {
      ArrivesOnlyTransparent(text);
    }
  }

  // ---- Reassembly ----------------------------------------------------------

  predicate IsClip(p: Packet) {
    p.header.typ == CLIPBOARD_TEXT || p.header.typ == CLIPBOARD_DATA_END
  }

  function ClipOnly(ps: seq<Packet>): seq<Packet> {
    if ps == [] then [] else (if IsClip(ps[0]) then [ps[0]] else []) + ClipOnly(ps[1..])
  }

  // Mouse, keyboard, heartbeat and all other packets leave a transfer alone.
  lemma {:induction false} OthersIgnored(b: Inbox, ps: seq<Packet>)
    ensures Deliveries(b, ps) == Deliveries(b, ClipOnly(ps))
    decreases |ps|
  {
    if ps == [] {
    } else {
      OthersIgnored(Receive(b, ps[0]), ps[1..]);
      if IsClip(ps[0]) {
        assert ClipOnly(ps)[0] == ps[0] && ClipOnly(ps)[1..] == ClipOnly(ps[1..]);
      } else {
        assert ClipOnly(ps) == ClipOnly(ps[1..]);
        assert [] + Deliveries(b, ps[1..]) == Deliveries(b, ps[1..]);
      }
    }
  }

  // ps are packets the session made of these calls: same types, same bytes.
  ghost predicate Made(ps: seq<Packet>, sends: seq<Outgoing>) {
    |ps| == |sends| && forall i :: 0 <= i < |ps| ==> MadeOf(ps[i], sends[i])
  }

  predicate MadeOf(p: Packet, o: Outgoing) {
    && p.header.typ == o.typ
    && (o.payload.BytesPayload? ==> p.raw == Some(o.payload.bytes))
  }

  function Arrived(ps: seq<Packet>): (rs: seq<Packet>)
    ensures |rs| == |ps|
  {
    seq(|ps|, i requires 0 <= i < |ps| => NormalForm(ps[i]))
  }

  lemma DeliverFirst(b: Inbox, p: Packet, rest: seq<Packet>)
    ensures Deliveries(b, [p] + rest) == Delivered(b, p) + Deliveries(Receive(b, p), rest)
  {
    assert ([p] + rest)[1..] == rest;
  }

  lemma ArrivedCons(ps: seq<Packet>)
    requires ps != []
    ensures Arrived(ps) == [NormalForm(ps[0])] + Arrived(ps[1..])
  {
  }

  lemma FitsChunk(chunk: seq<byte>)
    requires 0 < |chunk| <= CHUNK
    ensures FitRaw(Some(chunk), CHUNK) == Padded(chunk)
  {
    assert Short(|chunk|) == CHUNK - |chunk|;
  }

  lemma PaddedSplits(data: seq<byte>)
    requires |data| > CHUNK
    ensures Padded(data) == data[..CHUNK] + Padded(data[CHUNK..])
    ensures Fit(data[..CHUNK], CHUNK) == data[..CHUNK]
  {
    assert Short(|data|) == Short(|data| - CHUNK);
    assert data == data[..CHUNK] + data[CHUNK..];
  }

  lemma MadeCons(ps: seq<Packet>, o: Outgoing, sends: seq<Outgoing>)
    requires Made(ps, [o] + sends)
    ensures ps != [] && MadeOf(ps[0], o) && Made(ps[1..], sends)
  {
    assert ([o] + sends)[0] == o;
    forall i | 0 <= i < |sends|
      ensures MadeOf(ps[1..][i], sends[i])
    {
      assert ([o] + sends)[i + 1] == sends[i];
    }
  }

  // One transfer into an inbox that already holds some bytes.
  lemma {:induction false} ChunksDelivered(held: seq<byte>, busy: bool, data: seq<byte>, ps: seq<Packet>,
        rest: seq<Packet>)
    requires Made(ps, Transfer(data))
    requires (busy && held != []) || data != []
    ensures Deliveries(Inbox(held, busy), Arrived(ps) + rest) == [held + Padded(data)] + Deliveries(EMPTY, rest)
    decreases |data|
  {
    var b := Inbox(held, busy);
    ArrivedCons(ps);
    Associative([NormalForm(ps[0])], Arrived(ps[1..]), rest);
    DeliverFirst(b, NormalForm(ps[0]), Arrived(ps[1..]) + rest);
    if data == [] {
      assert Transfer(data) == [Outgoing(CLIPBOARD_DATA_END, Session.NoPayload)];
      assert Arrived(ps[1..]) + rest == rest;
      assert held + Padded(data) == held;
    } else {
      var chunk := data[..Min(CHUNK, |data|)];
      var after := data[|chunk|..];
      TransferCons(data);
      MadeCons(ps, Outgoing(CLIPBOARD_TEXT, Session.BytesPayload(chunk)), Transfer(after));
      var raw := FitRaw(Some(chunk), CHUNK);
      assert NormalForm(ps[0]).raw == Some(raw);
      assert Receive(b, NormalForm(ps[0])) == Inbox(held + raw, true);
      ChunksDelivered(held + raw, true, after, ps[1..], rest);
      Associative(held, raw, Padded(after));
      PaddedByChunks(data);
    }
  }

  lemma PaddedByChunks(data: seq<byte>)
    requires data != []
    ensures var chunk := data[..Min(CHUNK, |data|)];
      FitRaw(Some(chunk), CHUNK) + Padded(data[|chunk|..]) == Padded(data)
  {
    if |data| > CHUNK {
      PaddedSplits(data);
    } else {
      assert data[..|data|] == data && data[|data|..] == [];
      FitsChunk(data);
      assert Padded(data) + Padded([]) == Padded(data);
    }
  }

  lemma TransferCons(data: seq<byte>)
    requires data != []
    ensures var chunk := data[..Min(CHUNK, |data|)];
      Transfer(data) == [Outgoing(CLIPBOARD_TEXT, Session.BytesPayload(chunk))] + Transfer(data[|chunk|..])
  {
    ChunksStep(data, 0);
    assert data[0..] == data;
    var chunk := data[..Min(CHUNK, |data|)];
    assert data[0..|chunk|] == chunk;
    Associative([Outgoing(CLIPBOARD_TEXT, Session.BytesPayload(chunk))], ChunkSends(Chunks(data[|chunk|..])),
                [Outgoing(CLIPBOARD_DATA_END, Session.NoPayload)]);
  }

  // The clipboard packets among those sent are some whole transfers, one after
  // the other; anything may be mixed in between and within them.
  ghost predicate Transfers(sent: seq<Packet>, pss: seq<seq<Packet>>, datas: seq<seq<byte>>) {
    && ClipOnly(sent) == Flatten(pss)
    && |pss| == |datas|
    && forall i :: 0 <= i < |datas| ==> datas[i] != [] && Made(pss[i], Transfer(datas[i]))
  }

  function PaddedAll(datas: seq<seq<byte>>): seq<seq<byte>> {
    seq(|datas|, i requires 0 <= i < |datas| => Padded(datas[i]))
  }

  lemma {:induction false} ArrivedAppend(a: seq<Packet>, b: seq<Packet>)
    ensures Arrived(a + b) == Arrived(a) + Arrived(b)
  {
  }

  lemma {:induction false} ClipArrives(ps: seq<Packet>)
    ensures ClipOnly(Arrived(ps)) == Arrived(ClipOnly(ps))
    decreases |ps|
  {
    if ps == [] {
    } else {
      ClipArrives(ps[1..]);
      ArrivedCons(ps);
      assert Arrived(ps)[1..] == Arrived(ps[1..]);
      assert IsClip(NormalForm(ps[0])) == IsClip(ps[0]);
      if IsClip(ps[0]) {
        ArrivedCons(ClipOnly(ps));
        assert ClipOnly(ps)[1..] == ClipOnly(ps[1..]);
      } else {
        assert ClipOnly(ps) == ClipOnly(ps[1..]);
      }
    }
  }

  lemma {:induction false} TransfersDelivered(pss: seq<seq<Packet>>, datas: seq<seq<byte>>)
    requires |pss| == |datas|
    requires forall i :: 0 <= i < |datas| ==> datas[i] != [] && Made(pss[i], Transfer(datas[i]))
    ensures Deliveries(EMPTY, Arrived(Flatten(pss))) == PaddedAll(datas)
    decreases |pss|
  {
    if pss == [] {
    } else {
      TransfersDelivered(pss[1..], datas[1..]);
      ArrivedAppend(pss[0], Flatten(pss[1..]));
      ChunksDelivered([], false, datas[0], pss[0], Arrived(Flatten(pss[1..])));
      assert [] + Padded(datas[0]) == Padded(datas[0]);
      PaddedAllCons(datas);
    }
  }

  // Reassembly: whatever else is interleaved, every transfer's bytes come out
  // padded to a multiple of 48, in order, and no two transfers mix.
  lemma Reassembled(sent: seq<Packet>, pss: seq<seq<Packet>>, datas: seq<seq<byte>>)
    requires Transfers(sent, pss, datas)
    ensures Deliveries(EMPTY, Arrived(sent)) == PaddedAll(datas)
  {
    OthersIgnored(EMPTY, Arrived(sent));
    ClipArrives(sent);
    TransfersDelivered(pss, datas);
  }

  // ---- The whole way -------------------------------------------------------

  // The packets receiveLoop gets to see: it skips rejected frames.
  function Seen(outcomes: seq<Channel.Outcome>): seq<Packet> {
    if outcomes == [] then []
    else (if outcomes[0].Received? then [outcomes[0].packet] else []) + Seen(outcomes[1..])
  }

  lemma {:induction false} SeenNormal(ps: seq<Packet>)
    ensures Seen(Channel.NormalForms(ps)) == Arrived(ps)
    decreases |ps|
  {
    if ps == [] {
    } else {
      SeenNormal(ps[1..]);
      ArrivedCons(ps);
      assert Channel.NormalForms(ps)[1..] == Channel.NormalForms(ps[1..]);
    }
  }

  ghost predicate PackedTexts(z: Flate, texts: seq<seq<byte>>, datas: seq<seq<byte>>) {
    |texts| == |datas| && forall i :: 0 <= i < |texts| ==> datas[i] == Packed(z, texts[i])
  }

  lemma PaddedAllCons(datas: seq<seq<byte>>)
    requires datas != []
    ensures PaddedAll(datas) == [Padded(datas[0])] + PaddedAll(datas[1..])
  {
  }

  lemma TextsCons(z: Flate, buffer: seq<byte>, rest: seq<seq<byte>>)
    ensures Texts(z, [buffer] + rest) == NonEmpty([Unpacked(z, buffer)]) + Texts(z, rest)
  {
    assert ([buffer] + rest)[1..] == rest;
    NonEmptyCons([Unpacked(z, buffer)]);
    assert [Unpacked(z, buffer)] + [] == [Unpacked(z, buffer)];
  }

  predicate Restores(z: Flate, data: seq<byte>, text: seq<byte>) {
    Unpacked(z, Padded(data)) == text
  }

  // An empty text is not put on the clipboard.
  function NonEmpty(texts: seq<seq<byte>>): seq<seq<byte>> {
    if texts == [] then [] else (if texts[0] == [] then [] else [texts[0]]) + NonEmpty(texts[1..])
  }

  lemma NonEmptyCons(texts: seq<seq<byte>>)
    requires texts != []
    ensures NonEmpty(texts) == NonEmpty([texts[0]]) + NonEmpty(texts[1..])
    ensures NonEmpty([texts[0]]) == if texts[0] == [] then [] else [texts[0]]
  {
    var one: seq<seq<byte>> := [texts[0]];
    assert |one[1..]| == 0;
  }

  lemma {:induction false} NonEmptyPrefix(texts: seq<seq<byte>>, k: nat)
    requires k <= |texts|
    ensures NonEmpty(texts[..k]) <= NonEmpty(texts)
    decreases k
  {
    if k == 0 {
      assert texts[..k] == [];
    } else {
      NonEmptyPrefix(texts[1..], k - 1);
      assert texts[..k][1..] == texts[1..][..k - 1] && texts[..k][0] == texts[0];
      NonEmptyCons(texts);
      NonEmptyCons(texts[..k]);
    }
  }

  lemma {:induction false} TextsRestored(z: Flate, texts: seq<seq<byte>>, datas: seq<seq<byte>>)
    requires |texts| == |datas| && forall i :: 0 <= i < |texts| ==> Restores(z, datas[i], texts[i])
    ensures Texts(z, PaddedAll(datas)) == NonEmpty(texts)
    decreases |texts|
  {
    if texts == [] {
    } else {
      assert Restores(z, datas[0], texts[0]);
      TextsRestored(z, texts[1..], datas[1..]);
      PaddedAllCons(datas);
      TextsCons(z, Padded(datas[0]), PaddedAll(datas[1..]));
      NonEmptyCons(texts);
    }
  }

  // Copied texts, packed, cut into packets, sent among any other packets over
  // the encrypted stream, are what the peer puts on its clipboard, in order, but
  // for empty ones.
  lemma ClipboardOverTheWire(z: Flate, texts: seq<seq<byte>>, datas: seq<seq<byte>>,
                             sent: seq<Packet>, pss: seq<seq<Packet>>,
                             c: BlockCipher, magic: uint32, iv: Block)
    requires Lossless(z) && Inverts(c)
    requires PackedTexts(z, texts, datas) && Transfers(sent, pss, datas)
    requires forall i :: 0 <= i < |texts| ==> Transparent(texts[i])
    requires Channel.AllSendable(sent)
    ensures var wire := CbcEncrypt(c, iv, Channel.PlainOf(sent, magic));
      var log := Channel.ReadPackets(c, magic, iv, wire, |sent|);
      Texts(z, Deliveries(EMPTY, Seen(log.outcomes))) == NonEmpty(texts)
  {
    var wire := CbcEncrypt(c, iv, Channel.PlainOf(sent, magic));
    Channel.ReadsAllPackets(c, magic, iv, sent, []);
    assert wire + [] == wire;
    SeenNormal(sent);
    Reassembled(sent, pss, datas);
    forall i | 0 <= i < |texts|
      ensures Restores(z, datas[i], texts[i])
    {
      ArrivesIff(z, texts[i]);
    }
    TextsRestored(z, texts, datas);
  }
}
