/** Fixed-width integers, little-endian words, byte sums and exclusive-or. */
module Bytes {

  type byte = x: int | 0 <= x < 0x100
  type uint16 = x: int | 0 <= x < 0x1_0000
  type uint32 = x: int | 0 <= x < 0x1_0000_0000
  type uint64 = x: int | 0 <= x < 0x1_0000_0000_0000_0000
  type int32 = x: int | -0x8000_0000 <= x < 0x8000_0000

  const MIN_INT32: int32 := -0x8000_0000

  // Go's conversions between int32 and uint32 keep the bit pattern.
  function ToUint32(x: int32): uint32 {
    if x < 0 then x + 0x1_0000_0000 else x
  }

  function ToInt32(x: uint32): int32 {
    if x >= 0x8000_0000 then x - 0x1_0000_0000 else x
  }

  // Go's int32(v) of a wider integer keeps the low 32 bits.
  function TruncateToInt32(v: int): int32 {
    ToInt32(v % 0x1_0000_0000)
  }

  // Go's ^x on a uint32.
  function Complement(x: uint32): uint32 {
    0xFFFF_FFFF - x
  }

  function Zeros(n: nat): (z: seq<byte>)
    ensures |z| == n
    ensures forall i :: 0 <= i < n ==> z[i] == 0
  {
    seq(n, i => 0)
  }

  function Flatten<T>(parts: seq<seq<T>>): seq<T> {
    if parts == [] then [] else parts[0] + Flatten(parts[1..])
  }

  lemma Associative<T>(a: seq<T>, b: seq<T>, c: seq<T>)
    ensures (a + b) + c == a + (b + c)
  {
  }

  lemma TakeDropAppend<T>(a: seq<T>, b: seq<T>, n: nat)
    requires n <= |a|
    ensures (a + b)[..n] == a[..n]
    ensures (a + b)[n..] == a[n..] + b
  {
  }

  lemma {:induction false} FlattenAppend<T>(a: seq<seq<T>>, b: seq<seq<T>>)
    ensures Flatten(a + b) == Flatten(a) + Flatten(b)
  {
    if a == [] {
      assert a + b == b;
    } else {
      FlattenAppend(a[1..], b);
      TakeDropAppend(a, b, 1);
      Associative(a[0], Flatten(a[1..]), Flatten(b));
    }
  }

  lemma FlattenSnoc<T>(a: seq<seq<T>>, x: seq<T>)
    ensures Flatten(a + [x]) == Flatten(a) + x
  {
    FlattenAppend(a, [x]);
    assert Flatten([x]) == x + Flatten([]);
  }

  // ---- Little-endian words -------------------------------------------------

  function Le32(x: uint32): (r: seq<byte>)
    ensures |r| == 4
  {
    var q := x / 0x100;
    [x % 0x100, q % 0x100, q / 0x100 % 0x100, q / 0x100 / 0x100]
  }

  function Word(b0: int, b1: int, b2: int, b3: int): int {
    b0 + 0x100 * (b1 + 0x100 * (b2 + 0x100 * b3))
  }

  function FromLe32(b: seq<byte>): uint32
    requires |b| == 4
  {
    Word(b[0], b[1], b[2], b[3])
  }

  function Le64(x: uint64): (r: seq<byte>)
    ensures |r| == 8
  {
    Le32(x % 0x1_0000_0000) + Le32(x / 0x1_0000_0000)
  }

  function FromLe64(b: seq<byte>): uint64
    requires |b| == 8
  {
    FromLe32(b[..4]) + 0x1_0000_0000 * FromLe32(b[4..])
  }

  lemma Le32RoundTrip(x: uint32)
    ensures FromLe32(Le32(x)) == x
  {
    var q := x / 0x100;
    var r := q / 0x100;
    assert r == r % 0x100 + 0x100 * (r / 0x100);
    assert q == q % 0x100 + 0x100 * r;
  }

  lemma WordDigits(b0: byte, b1: byte, b2: byte, b3: byte)
    ensures Le32(Word(b0, b1, b2, b3)) == [b0, b1, b2, b3]
  {
    var r := b2 + 0x100 * (b3 as int);
    var q := b1 + 0x100 * r;
    var x := b0 + 0x100 * q;
    assert x / 0x100 == q && x % 0x100 == b0;
    assert q / 0x100 == r && q % 0x100 == b1;
  }

  lemma Le32Inverse(b: seq<byte>)
    requires |b| == 4
    ensures Le32(FromLe32(b)) == b
  {
    WordDigits(b[0], b[1], b[2], b[3]);
  }

  lemma Le64RoundTrip(x: uint64)
    ensures FromLe64(Le64(x)) == x
  {
    Le32RoundTrip(x % 0x1_0000_0000);
    Le32RoundTrip(x / 0x1_0000_0000);
    assert Le64(x)[..4] == Le32(x % 0x1_0000_0000);
    assert Le64(x)[4..] == Le32(x / 0x1_0000_0000);
  }

  lemma SplitWide(low: uint32, high: uint32)
    ensures (low + 0x1_0000_0000 * high) % 0x1_0000_0000 == low
    ensures (low + 0x1_0000_0000 * high) / 0x1_0000_0000 == high
  {
  }

  lemma Le64Inverse(b: seq<byte>)
    requires |b| == 8
    ensures Le64(FromLe64(b)) == b
  {
    Le32Inverse(b[..4]);
    Le32Inverse(b[4..]);
    var low: int, high: int := FromLe32(b[..4]), FromLe32(b[4..]);
    SplitWide(low, high);
    var x := FromLe64(b);
    assert x == low + 0x1_0000_0000 * high;
    assert Le64(x) == Le32(low) + Le32(high);
    assert b == b[..4] + b[4..];
  }

  // ---- Byte sums -----------------------------------------------------------

  function Sum(s: seq<byte>): nat {
    if s == [] then 0 else Sum(s[..|s| - 1]) + s[|s| - 1]
  }

  lemma {:induction false} SumAppend(a: seq<byte>, b: seq<byte>)
    ensures Sum(a + b) == Sum(a) + Sum(b)
    ensures |a| == 1 ==> Sum(a) == a[0]
    decreases |b|
  {
    assert |a| == 1 ==> a[..0] == [];
    if b == [] {
      assert a + b == a;
    } else {
      SumAppend(a, b[..|b| - 1]);
      assert (a + b)[..|a + b| - 1] == a + b[..|b| - 1];
    }
  }

  lemma SumSnoc(s: seq<byte>, from: nat, to: nat)
    requires from <= to < |s|
    ensures Sum(s[from..to + 1]) == Sum(s[from..to]) + s[to]
  {
    assert s[from..to + 1][..to - from] == s[from..to];
  }

  lemma {:induction false} SumUpdate(s: seq<byte>, k: nat, v: byte)
    requires k < |s|
    ensures Sum(s[k := v]) == Sum(s) - s[k] + v
  {
    var n := |s| - 1;
    if k < n {
      SumUpdate(s[..n], k, v);
      assert s[k := v][..n] == s[..n][k := v];
    } else {
      assert s[k := v][..n] == s[..n];
    }
  }

  // ---- Bitwise exclusive-or ------------------------------------------------

  function Xor(a: nat, b: nat): nat
    decreases a + b
  {
    if a == 0 && b == 0 then 0 else (a + b) % 2 + 2 * Xor(a / 2, b / 2)
  }

  lemma {:induction false} XorCommutes(a: nat, b: nat)
    ensures Xor(a, b) == Xor(b, a)
    decreases a + b
  {
    if a != 0 || b != 0 {
      XorCommutes(a / 2, b / 2);
    }
  }

  lemma {:induction false} XorFits(a: nat, b: nat, bits: nat)
    requires a < Pow2(bits) && b < Pow2(bits)
    ensures Xor(a, b) < Pow2(bits)
    decreases a + b
  {
    if a != 0 || b != 0 {
      XorFits(a / 2, b / 2, bits - 1);
    }
  }

  lemma {:induction false} XorUndoes(a: nat, b: nat)
    ensures Xor(Xor(a, b), b) == a
    decreases a + b
  {
    if a != 0 || b != 0 {
      XorUndoes(a / 2, b / 2);
      Parity(a, b, Xor(a / 2, b / 2));
    }
  }

  lemma Parity(a: nat, b: nat, high: nat)
    ensures var x := (a + b) % 2 + 2 * high;
      x / 2 == high && (x + b) % 2 == a % 2
  {
  }

  function Pow2(n: nat): (p: nat)
    ensures p > 0
  {
    if n == 0 then 1 else 2 * Pow2(n - 1)
  }

  lemma Pow2Eight()
    ensures Pow2(8) == 0x100
  {
    assert Pow2(2) == 4;
    assert Pow2(4) == 16;
    assert Pow2(6) == 64;
  }

  function XorByte(a: byte, b: byte): byte {
    Pow2Eight();
    XorFits(a, b, 8);
    Xor(a, b)
  }

  function XorBytes(a: seq<byte>, b: seq<byte>): (r: seq<byte>)
    requires |a| == |b|
    ensures |r| == |a|
  {
    seq(|a|, i requires 0 <= i < |a| => XorByte(a[i], b[i]))
  }

  lemma XorCancel(a: seq<byte>, b: seq<byte>)
    requires |a| == |b|
    ensures XorBytes(XorBytes(a, b), b) == a
    ensures XorBytes(a, b) == XorBytes(b, a)
  {
    forall i | 0 <= i < |a|
      ensures XorByte(XorByte(a[i], b[i]), b[i]) == a[i]
      ensures XorByte(a[i], b[i]) == XorByte(b[i], a[i])
    {
      XorUndoes(a[i], b[i]);
      XorCommutes(a[i], b[i]);
    }
  }

  // ---- Bit by bit ----------------------------------------------------------

  function Bit(n: nat, i: nat): (b: nat)
    ensures b < 2
  {
    if i == 0 then n % 2 else Bit(n / 2, i - 1)
  }

  lemma {:induction false} BitsOfZero(i: nat)
    ensures Bit(0, i) == 0
  {
    if i == 0 {
    } else {
      BitsOfZero(i - 1);
    }
  }

  // A bit of the result is set exactly when it is set in one of the two.
  lemma {:induction false} XorBits(a: nat, b: nat, i: nat)
    ensures Bit(Xor(a, b), i) == (Bit(a, i) + Bit(b, i)) % 2
    decreases i
  {
    if a == 0 && b == 0 {
      BitsOfZero(i);
    } else {
      var high := Xor(a / 2, b / 2);
      Parity(a, b, high);
      if i == 0 {
      } else {
        XorBits(a / 2, b / 2, i - 1);
      }
    }
  }

  // Every bit is turned round.
  lemma {:induction false} ComplementBitsOf(x: nat, n: nat, i: nat)
    requires x < Pow2(n) && i < n
    ensures Bit(Pow2(n) - 1 - x, i) == 1 - Bit(x, i)
    decreases i
  {
    var half := Pow2(n - 1);
    assert (2 * half - 1 - x) / 2 == half - 1 - x / 2;
    if i == 0 {
    } else {
      ComplementBitsOf(x / 2, n - 1, i - 1);
    }
  }

  lemma Pow2ThirtyTwo()
    ensures Pow2(32) == 0x1_0000_0000
  {
    Pow2Eight();
    assert Pow2(12) == 0x1000 by { assert Pow2(10) == 0x400; }
    assert Pow2(16) == 0x1_0000 by { assert Pow2(14) == 0x4000; }
    assert Pow2(20) == 0x10_0000 by { assert Pow2(18) == 0x4_0000; }
    assert Pow2(24) == 0x100_0000 by { assert Pow2(22) == 0x40_0000; }
    assert Pow2(28) == 0x1000_0000 by { assert Pow2(26) == 0x400_0000; }
    assert Pow2(30) == 0x4000_0000;
  }

  lemma ComplementBits(x: uint32, i: nat)
    requires i < 32
    ensures Bit(Complement(x), i) == 1 - Bit(x, i)
  {
    Pow2ThirtyTwo();
    ComplementBitsOf(x, 32, i);
  }
}
