/** UTF-8 as Go encodes and decodes it (section 3 of RFC 3629, with U+FFFD for
    anything ill-formed). */
module Utf8 {
  import opened Bytes

  type rune = r: int | 0 <= r < 0x11_0000

  const RUNE_ERROR: rune := 0xFFFD

  predicate Surrogate(r: rune) {
    0xD800 <= r < 0xE000
  }

  // What string(r) holds; a surrogate becomes U+FFFD.
  function EncodeRune(r: rune): (b: seq<byte>)
    ensures 1 <= |b| <= 4
  {
    if r < 0x80 then [r]
    else if r < 0x800 then [0xC0 + r / 0x40, 0x80 + r % 0x40]
    else if Surrogate(r) then [0xEF, 0xBF, 0xBD]
    else if r < 0x1_0000 then [0xE0 + r / 0x1000, 0x80 + r / 0x40 % 0x40, 0x80 + r % 0x40]
    else [0xF0 + r / 0x4_0000, 0x80 + r / 0x1000 % 0x40, 0x80 + r / 0x40 % 0x40, 0x80 + r % 0x40]
  }

  function Encode(rs: seq<rune>): seq<byte> {
    if rs == [] then [] else EncodeRune(rs[0]) + Encode(rs[1..])
  }

  predicate Tail(b: byte) {
    0x80 <= b < 0xC0
  }

  // Six more bits: the payload of b under its marker bits.
  function Join(high: int, b: byte, marker: int): int {
    high * 0x40 + (b - marker)
  }

  datatype Decoded = Decoded(r: rune, width: nat)

  const BAD: Decoded := Decoded(RUNE_ERROR, 1)

  // utf8.DecodeRune on a non-empty string.
  function DecodeRune(s: seq<byte>): (d: Decoded)
    requires s != []
    ensures 1 <= d.width <= |s|
  {
    var b := s[0];
    if b < 0x80 then Decoded(b, 1)
    else if b < 0xC2 || b >= 0xF5 then BAD
    else if |s| < 2 || !Tail(s[1]) then BAD
    else if b < 0xE0 then Decoded(Join(Join(0, b, 0xC0), s[1], 0x80), 2)
    else if (b == 0xE0 && s[1] < 0xA0) || (b == 0xED && s[1] >= 0xA0)
         || (b == 0xF0 && s[1] < 0x90) || (b == 0xF4 && s[1] >= 0x90) then BAD
    else if |s| < 3 || !Tail(s[2]) then BAD
    else if b < 0xF0 then Decoded(Join(Join(Join(0, b, 0xE0), s[1], 0x80), s[2], 0x80), 3)
    else if |s| < 4 || !Tail(s[3]) then BAD
    else Decoded(Join(Join(Join(Join(0, b, 0xF0), s[1], 0x80), s[2], 0x80), s[3], 0x80), 4)
  }

  // The runes a range loop over the string visits.
  function Runes(s: seq<byte>): seq<rune>
    decreases |s|
  {
    if s == [] then []
    else
      var d := DecodeRune(s);
      [d.r] + Runes(s[d.width..])
  }

  predicate Scalars(rs: seq<rune>) {
    forall i :: 0 <= i < |rs| ==> !Surrogate(rs[i])
  }

  // ---- Decoding what was encoded -------------------------------------------

  lemma Digits64(r: rune)
    ensures r == r / 0x40 * 0x40 + r % 0x40
    ensures r == r / 0x1000 * 0x1000 + r / 0x40 % 0x40 * 0x40 + r % 0x40
    ensures r == r / 0x4_0000 * 0x4_0000 + r / 0x1000 % 0x40 * 0x1000 + r / 0x40 % 0x40 * 0x40 + r % 0x40
  {
    var q := r / 0x40;
    assert r / 0x1000 == q / 0x40;
    assert q == q / 0x40 * 0x40 + q % 0x40;
    var p := r / 0x1000;
    assert r / 0x4_0000 == p / 0x40;
    assert p == p / 0x40 * 0x40 + p % 0x40;
  }

  // The table of section 3 of RFC 3629: how many octets, in which range the first
  // one is, and the value their free bits make.
  lemma OctetsOf(r: rune)
    ensures var e := EncodeRune(r);
      && (forall i :: 1 <= i < |e| ==> 0x80 <= e[i] <= 0xBF)
      && (r <= 0x7F ==> |e| == 1 && e[0] == r)
      && (0x80 <= r <= 0x7FF ==> |e| == 2 && 0xC0 <= e[0] <= 0xDF && r == 0x40 * (e[0] as int - 0xC0) + (e[1] as int - 0x80))
      && (0x800 <= r <= 0xFFFF && !(0xD800 <= r <= 0xDFFF) ==>
            |e| == 3 && 0xE0 <= e[0] <= 0xEF
            && r == 0x1000 * (e[0] as int - 0xE0) + 0x40 * (e[1] as int - 0x80) + (e[2] as int - 0x80))
      && (0xD800 <= r <= 0xDFFF ==> e == [0xEF, 0xBF, 0xBD])
      && (0x1_0000 <= r <= 0x10_FFFF ==>
            |e| == 4 && 0xF0 <= e[0] <= 0xF7
            && r == 0x4_0000 * (e[0] as int - 0xF0) + 0x1000 * (e[1] as int - 0x80) + 0x40 * (e[2] as int - 0x80)
                    + (e[3] as int - 0x80))
  {
    Digits64(r);
  }

  // The first octets of a string are taken for a rune exactly when they are the
  // octets of one; anything else costs one octet and counts as U+FFFD.
  lemma DecodesIff(s: seq<byte>, r: rune)
    requires s != [] && !Surrogate(r)
    ensures EncodeRune(r) <= s ==> DecodeRune(s) == Decoded(r, |EncodeRune(r)|)
    ensures var d := DecodeRune(s);
      d == Decoded(0xFFFD, 1) || (!Surrogate(d.r) && EncodeRune(d.r) == s[..d.width])
  {
    if EncodeRune(r) <= s {
      var rest := s[|EncodeRune(r)|..];
      assert s == EncodeRune(r) + rest;
      DecodesEncoded(r, rest);
    }
    if DecodeRune(s) != BAD {
      EncodesDecoded(s);
    }
  }

  lemma EncodesDecoded(s: seq<byte>)
    requires s != [] && DecodeRune(s) != BAD
    ensures var d := DecodeRune(s); !Surrogate(d.r) && EncodeRune(d.r) == s[..d.width]
  {
    var d := DecodeRune(s);
    if d.width == 2 {
      TwoDigits(s[0] - 0xC0, s[1] - 0x80, d.r);
    } else if d.width == 3 {
      ThreeDigits(s[0] - 0xE0, s[1] - 0x80, s[2] - 0x80, d.r);
    } else if d.width == 4 {
      FourDigits(s[0] - 0xF0, s[1] - 0x80, s[2] - 0x80, s[3] - 0x80, d.r);
    }
  }

  lemma TwoDigits(a: int, b: int, r: int)
    requires 0 <= a && 0 <= b < 0x40 && r == a * 0x40 + b
    ensures r / 0x40 == a && r % 0x40 == b
  {
  }

  lemma ThreeDigits(a: int, b: int, c: int, r: int)
    requires 0 <= a && 0 <= b < 0x40 && 0 <= c < 0x40 && r == (a * 0x40 + b) * 0x40 + c
    ensures r / 0x1000 == a && r / 0x40 % 0x40 == b && r % 0x40 == c
  {
    TwoDigits(a * 0x40 + b, c, r);
    TwoDigits(a, b, a * 0x40 + b);
  }

  lemma FourDigits(a: int, b: int, c: int, d: int, r: int)
    requires 0 <= a && 0 <= b < 0x40 && 0 <= c < 0x40 && 0 <= d < 0x40 && r == ((a * 0x40 + b) * 0x40 + c) * 0x40 + d
    ensures r / 0x4_0000 == a && r / 0x1000 % 0x40 == b && r / 0x40 % 0x40 == c && r % 0x40 == d
  {
    TwoDigits((a * 0x40 + b) * 0x40 + c, d, r);
    ThreeDigits(a, b, c, (a * 0x40 + b) * 0x40 + c);
    assert r / 0x1000 == r / 0x40 / 0x40 && r / 0x4_0000 == r / 0x40 / 0x1000;
  }

  lemma DecodesEncoded(r: rune, rest: seq<byte>)
    requires !Surrogate(r)
    ensures DecodeRune(EncodeRune(r) + rest) == Decoded(r, |EncodeRune(r)|)
    ensures (EncodeRune(r) + rest)[|EncodeRune(r)|..] == rest
  {
    Digits64(r);
    var s := EncodeRune(r) + rest;
    assert forall i :: 0 <= i < |EncodeRune(r)| ==> s[i] == EncodeRune(r)[i];
  }

  lemma {:induction false} RunesOfEncoded(rs: seq<rune>)
    requires Scalars(rs)
    ensures Runes(Encode(rs)) == rs
  {
    if rs == [] {
    } else {
      RunesOfEncoded(rs[1..]);
      DecodesEncoded(rs[0], Encode(rs[1..]));
    }
  }

  // ---- Boundaries ----------------------------------------------------------

  // No multi-byte rune reaches over an ASCII byte.
  lemma DecodeStopsAtAscii(s: seq<byte>, next: seq<byte>)
    requires s != [] && (next == [] || next[0] < 0x80)
    ensures DecodeRune(s + next) == DecodeRune(s)
  {
    var t := s + next;
    assert forall i :: 0 <= i < |s| ==> t[i] == s[i];
    assert next != [] ==> t[|s|] == next[0];
  }

  lemma {:induction false} RunesSplitAtAscii(s: seq<byte>, next: seq<byte>)
    requires next == [] || next[0] < 0x80
    ensures Runes(s + next) == Runes(s) + Runes(next)
    decreases |s|
  {
    if s == [] {
      assert s + next == next;
    } else {
      var d := DecodeRune(s);
      DecodeStopsAtAscii(s, next);
      RunesSplitAtAscii(s[d.width..], next);
      TakeDropAppend(s, next, d.width);
      Associative([d.r], Runes(s[d.width..]), Runes(next));
    }
  }

  predicate Ascii(s: seq<byte>) {
    forall i :: 0 <= i < |s| ==> 0 < s[i] < 0x80
  }

  lemma {:induction false} RunesOfAscii(s: seq<byte>)
    requires Ascii(s)
    ensures Runes(s) == s
    decreases |s|
  {
    if s == [] {
    } else {
      RunesOfAscii(s[1..]);
    }
  }

  lemma {:induction false} EncodeAscii(s: seq<byte>)
    requires Ascii(s)
    ensures Encode(s) == s
    decreases |s|
  {
    if s == [] {
    } else {
      EncodeAscii(s[1..]);
    }
  }

  lemma {:induction false} EncodeAppend(a: seq<rune>, b: seq<rune>)
    ensures Encode(a + b) == Encode(a) + Encode(b)
    decreases |a|
  {
    if a == [] {
      assert a + b == b;
    } else {
      EncodeAppend(a[1..], b);
      TakeDropAppend(a, b, 1);
      Associative(EncodeRune(a[0]), Encode(a[1..]), Encode(b));
    }
  }

  // A cut in front of an ASCII byte falls between two runes.
  lemma {:induction false} CutAtAscii(rs: seq<rune>, k: nat) returns (n: nat)
    requires k < |Encode(rs)| && Encode(rs)[k] < 0x80
    ensures n <= |rs| && Encode(rs)[..k] == Encode(rs[..n])
    decreases |rs|
  {
    var first := EncodeRune(rs[0]);
    var rest := Encode(rs[1..]);
    if k == 0 {
      n := 0;
    } else {
      FirstAsciiOnly(rs[0]);
      assert forall i :: 0 <= i < |first| ==> Encode(rs)[i] == first[i];
      var m := CutAtAscii(rs[1..], k - |first|);
      n := m + 1;
      assert rs[..n][0] == rs[0] && rs[..n][1..] == rs[1..][..m];
      assert Encode(rs)[..k] == first + rest[..k - |first|];
    }
  }

  lemma FirstAsciiOnly(r: rune)
    ensures forall i :: 0 < i < |EncodeRune(r)| ==> EncodeRune(r)[i] >= 0x80
  {
  }

  predicate NoNul(b: seq<byte>) {
    forall i :: 0 <= i < |b| ==> b[i] != 0
  }

  lemma NoNulAppend(a: seq<byte>, b: seq<byte>)
    requires NoNul(a) && NoNul(b)
    ensures NoNul(a + b)
  {
  }

  lemma NoNulRune(r: rune)
    requires r != 0
    ensures NoNul(EncodeRune(r))
  {
  }

  lemma {:induction false} NoNulBytes(rs: seq<rune>)
    requires forall i :: 0 <= i < |rs| ==> rs[i] != 0
    ensures NoNul(Encode(rs))
    decreases |rs|
  {
    if rs == [] {
    } else {
      NoNulRune(rs[0]);
      NoNulBytes(rs[1..]);
      NoNulAppend(EncodeRune(rs[0]), Encode(rs[1..]));
    }
  }
}
