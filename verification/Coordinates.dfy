/** The forwarded cursor: pixels to packet coordinates and back, in exact
    arithmetic, and the cursor update that feeds it. */
module Coordinates {
  import opened Bytes
  import opened Uinput

  const MAX_COORDINATE: int32 := 65535
  const WM_MOUSEMOVE: int32 := 0x200
  const WM_MOUSEWHEEL: int32 := 0x20A

  function Clamp(v: real, min: real, max: real): real {
    if v < min then min else if v > max then max else v
  }

  function ClampInt(v: int, min: int32, max: int32): int32
    requires min <= max
  {
    if v < min then min else if v > max then max else v
  }

  // Go's math.Round on a value that is not negative.
  function Round(v: real): int
    requires v >= 0.0
  {
    (v + 0.5).Floor
  }

  lemma WholeOfItself(size: real)
    ensures size > 0.0 ==> size / size == 1.0
  {
  }

  lemma Quotients(c: real, size: real)
    requires size > 0.0 && 0.0 <= c <= size
    ensures 0.0 <= c / size <= size / size
  {
  }

  // A clamped position is a fraction of the size.
  lemma FractionInRange(pos: real, size: real)
    requires size > 0.0
    ensures 0.0 <= Clamp(pos, 0.0, size) / size <= 1.0
  {
    WholeOfItself(size);
    Quotients(Clamp(pos, 0.0, size), size);
  }

  function PixelToAbsolute(pos: real, size: real): int32 {
    if size <= 0.0 then 0
    else
      FractionInRange(pos, size);
      ClampInt(Round(Clamp(pos, 0.0, size) / size * 65535.0), 0, MAX_COORDINATE)
  }

  // ---- The cursor ----------------------------------------------------------

  datatype CursorAt = CursorAt(x: real, y: real)

  /** The sender's screen and its pixels per mouse count. */
  datatype Screen = Screen(width: real, height: real, scale: real)

  /** One pointer event: a movement, or a turn of the wheel. */
  datatype Motion = Motion(dx: int, dy: int, wheel: int)

  function Move(s: Screen, c: CursorAt, m: Motion): CursorAt {
    if m.wheel != 0 then c
    else
      CursorAt(Clamp(c.x + m.dx as real * s.scale, 0.0, s.width),
               Clamp(c.y + m.dy as real * s.scale, 0.0, s.height))
  }

  function PacketFor(s: Screen, c: CursorAt, m: Motion): MousePacket {
    MousePacket(PixelToAbsolute(c.x, s.width), PixelToAbsolute(c.y, s.height),
                TruncateToInt32(m.wheel), if m.wheel != 0 then WM_MOUSEWHEEL else WM_MOUSEMOVE)
  }

  /** The variables OnMouseEvent captures; sent collects what it sends. */
  class Cursor {
    const screen: Screen
    var x: real
    var y: real
    var sent: seq<MousePacket>

    ghost function At(): CursorAt
      reads this
    {
      CursorAt(x, y)
    }

    // Screens smaller than a pixel count as one pixel; 24 is the neutral sensitivity.
    constructor (screenWidth: int, screenHeight: int, sensitivity: int)
      ensures screen == Screen(AtLeastOne(screenWidth), AtLeastOne(screenHeight), sensitivity as real / 24.0)
      ensures At() == CursorAt(screen.width / 2.0, screen.height / 2.0) && sent == []
    {
      screen := Screen(AtLeastOne(screenWidth), AtLeastOne(screenHeight), sensitivity as real / 24.0);
      x := AtLeastOne(screenWidth) / 2.0;
      y := AtLeastOne(screenHeight) / 2.0;
      sent := [];
    }

    method CurrentCursor() returns (cursorX: int32, cursorY: int32)
      ensures cursorX == PixelToAbsolute(x, screen.width) && cursorY == PixelToAbsolute(y, screen.height)
    {
      return PixelToAbsolute(x, screen.width), PixelToAbsolute(y, screen.height);
    }

    method Advance(dx: int, dy: int)
      modifies this`x, this`y
      ensures At() == Move(screen, old(At()), Motion(dx, dy, 0))
    {
      x := x + dx as real * screen.scale;
      y := y + dy as real * screen.scale;
      x := Clamp(x, 0.0, screen.width);
      y := Clamp(y, 0.0, screen.height);
    }

    method OnMouseEvent(dx: int, dy: int, wheel: int)
      modifies this
      ensures var m := Motion(dx, dy, wheel);
        && At() == Move(screen, old(At()), m)
        && sent == old(sent) + [PacketFor(screen, At(), m)]
    {
      if wheel == 0 {
        Advance(dx, dy);
      }
      var cursorX, cursorY := CurrentCursor();
      var flags := WM_MOUSEMOVE;
      if wheel != 0 {
        flags := WM_MOUSEWHEEL;
      }
      sent := sent + [MousePacket(cursorX, cursorY, TruncateToInt32(wheel), flags)];
    }
  }

  function AtLeastOne(v: int): real {
    if v < 1 then 1.0 else v as real
  }

  function Moves(s: Screen, c: CursorAt, ms: seq<Motion>): (CursorAt, seq<MousePacket>) {
    if ms == [] then (c, [])
    else
      var (c', sent) := Moves(s, c, ms[..|ms| - 1]);
      var m := ms[|ms| - 1];
      var c'' := Move(s, c', m);
      (c'', sent + [PacketFor(s, c'', m)])
  }
}

module CoordinateProofs {
  import opened Bytes
  import opened Capture
  import opened Uinput
  import UinputProofs
  import opened Coordinates

  // ---- Rounding, in integers -----------------------------------------------

  lemma RoundBounds(v: real)
    requires v >= 0.0
    ensures Round(v) as real <= v + 0.5 < Round(v) as real + 1.0
    ensures Round(v) >= 0
  {
  }

  lemma RoundMonotone(v: real, w: real)
    requires 0.0 <= v <= w
    ensures Round(v) <= Round(w)
    ensures v + 1.0 <= w ==> Round(v) < Round(w)
  {
    RoundBounds(v);
    RoundBounds(w);
  }

  lemma Rescale(c: real, size: real)
    requires size > 0.0 && 0.0 <= c <= size
    ensures 0.0 <= c / size * 65535.0 <= 65535.0
    ensures c / size * 65535.0 * size == 65535.0 * c
  {
    FractionInRange(c, size);
    assert c / size * size == c;
  }

  // Clamping changes nothing once a position is on the screen.
  lemma OnScreenRounds(pos: real, size: real)
    requires size > 0.0 && 0.0 <= pos <= size
    ensures 0.0 <= pos / size * 65535.0
    ensures PixelToAbsolute(pos, size) == Round(pos / size * 65535.0)
  {
    Rescale(pos, size);
    RoundBounds(pos / size * 65535.0);
  }

  // Every position gives a coordinate in range, and the map keeps order.
  lemma Monotone(p: real, q: real, size: real)
    requires p <= q
    ensures 0 <= PixelToAbsolute(p, size) <= PixelToAbsolute(q, size) <= 65535
  {
    if size > 0.0 {
      var a, b := Clamp(p, 0.0, size), Clamp(q, 0.0, size);
      Rescale(a, size);
      Rescale(b, size);
      assert b / size - a / size == (b - a) / size;
      assert (b - a) / size >= 0.0;
      RoundMonotone(a / size * 65535.0, b / size * 65535.0);
    }
  }

  // The coordinate of whole pixel p on a screen w pixels wide.
  function AtPixel(p: int, w: int): int32 {
    PixelToAbsolute(p as real, w as real)
  }

  // One pixel further moves the coordinate by at least one, up to 65535 pixels.
  lemma NextPixel(p: int, w: int)
    requires 0 <= p < w <= 65535
    ensures AtPixel(p, w) < AtPixel(p + 1, w)
  {
    var size := w as real;
    var a, b := p as real, (p + 1) as real;
    OnScreenRounds(a, size);
    OnScreenRounds(b, size);
    assert b / size - a / size == 1.0 / size;
    assert 1.0 / size * 65535.0 >= 1.0 by {
      assert 65535.0 / size * size == 65535.0;
    }
    RoundMonotone(a / size * 65535.0, b / size * 65535.0);
  }

  ghost predicate Injective(w: int) {
    forall p, q :: 0 <= p < q <= w ==> AtPixel(p, w) != AtPixel(q, w)
  }

  lemma {:induction false} StrictlyIncreasing(p: int, q: int, w: int)
    requires 0 <= p < q <= w <= 65535
    ensures AtPixel(p, w) < AtPixel(q, w)
    decreases q
  {
    NextPixel(q - 1, w);
    if p < q - 1 {
      StrictlyIncreasing(p, q - 1, w);
    }
  }

  lemma {:induction false} AtLeastPosition(p: int, w: int)
    requires 0 <= p <= w && Injective(w)
    ensures AtPixel(p, w) >= p
    decreases p
  {
    Monotone(0.0, 0.0, w as real);
    if p > 0 {
      AtLeastPosition(p - 1, w);
      Monotone((p - 1) as real, p as real, w as real);
    }
  }

  // Pixels 0 to w have different coordinates exactly up to 65535.
  lemma InjectiveIff(w: int)
    requires w >= 0
    ensures Injective(w) <==> w <= 65535
  {
    if w <= 65535 {
      forall p, q | 0 <= p < q <= w
        ensures AtPixel(p, w) != AtPixel(q, w)
      {
        StrictlyIncreasing(p, q, w);
      }
    } else if Injective(w) {
      AtLeastPosition(w, w);
    }
  }

  // ---- There and back ------------------------------------------------------

  lemma Product(n: int, w: int)
    requires 0 <= n && 0 <= w
    ensures (n * w) as real == n as real * w as real && 0 <= n * w
  {
  }

  lemma FractionOf(e: real, size: real)
    requires 0.0 <= e < 1.0 && size > 0.0
    ensures 0.0 <= e * size < size
  {
  }

  lemma Distribute(e: real, v: real, n: real, size: real)
    requires e == v + 0.5 - n
    ensures e * size == v * size + 0.5 * size - n * size
  {
  }

  lemma Doubled(rest: real, vs: real, ns: real, p: real, size: real)
    requires 0.0 <= rest < size && rest == vs + 0.5 * size - ns && vs == 65535.0 * p
    ensures 2.0 * ns <= 131070.0 * p + size
    ensures 131070.0 * p < 2.0 * ns + size
  {
  }

  lemma Offset(e: real, v: real, n: real, p: real, size: real)
    requires size > 0.0 && e == v + 0.5 - n && 0.0 <= e < 1.0 && v * size == 65535.0 * p
    ensures 2.0 * (n * size) <= 131070.0 * p + size
    ensures 131070.0 * p < 2.0 * (n * size) + size
  {
    FractionOf(e, size);
    Distribute(e, v, n, size);
    Doubled(e * size, v * size, n * size, p, size);
  }

  // What rounding does to a position, multiplied out.
  lemma Rounded(p: real, w: int, n: int)
    requires 0 < w && 0.0 <= p <= w as real && n == PixelToAbsolute(p, w as real)
    ensures 2.0 * (n * w) as real <= 131070.0 * p + w as real
    ensures 131070.0 * p < 2.0 * (n * w) as real + w as real
    ensures 0 <= n * w
  {
    var size := w as real;
    var v := p / size * 65535.0;
    OnScreenRounds(p, size);
    Rescale(p, size);
    RoundBounds(v);
    Offset(v + 0.5 - n as real, v, n as real, p, size);
    Product(n, w);
  }

  lemma SixteenBits(t: int)
    requires 0 <= t
    ensures 65536.0 * (t / 65536) as real <= t as real <= 65536.0 * (t / 65536) as real + 65535.0
    ensures Quotient(t, 65536) == t / 65536 >= 0
  {
    assert (65536 * (t / 65536)) as real == 65536.0 * (t / 65536) as real;
  }

  lemma Shortfall(p: real, w: real, t: real, k: real)
    requires w <= 65536.0 && p <= w && 0.0 <= p
    requires 131070.0 * p - w < 2.0 * t <= 131070.0 * p + w
    requires 65536.0 * k <= t <= 65536.0 * k + 65535.0
    ensures p - 2.5 < k < p + 1.0
    ensures w <= 43690.0 ==> p - 2.0 < k
  {
  }

  // On a screen of the same width the other side's pixel is less than one pixel
  // beyond the position, and short of it by less than two and a half pixels up
  // to 65536 pixels, by less than two up to 43690.
  lemma Follows(p: real, w: int)
    requires 0 < w <= 65536 && 0.0 <= p <= w as real
    ensures var k := Scale(PixelToAbsolute(p, w as real), w);
      && 0 <= k && p - 2.5 < k as real < p + 1.0
      && (w <= 43690 ==> p - 2.0 < k as real)
  {
    var n := PixelToAbsolute(p, w as real);
    Rounded(p, w, n);
    SixteenBits(n * w);
    Shortfall(p, w as real, (n * w) as real, Scale(n, w) as real);
  }

  lemma Between(k: int, p: int)
    requires p as real - 2.0 < k as real < p as real + 1.0
    ensures p - 1 <= k <= p
  {
  }

  lemma FarEdge(w: int)
    requires 0 < w <= 65536
    ensures Scale(AtPixel(w, w), w) == w - 1
  {
    var size := w as real;
    OnScreenRounds(size, size);
    WholeOfItself(size);
    assert AtPixel(w, w) == 65535;
    assert 65535 * w == 65536 * (w - 1) + (65536 - w);
  }

  // Whole pixels come back as themselves or one less; the far edge, which is
  // one past the last pixel, as the last pixel.
  lemma WithinOnePixel(p: int, w: int)
    requires 0 <= p <= w && 0 < w <= 43690
    ensures p < w ==> Scale(AtPixel(p, w), w) == p || Scale(AtPixel(p, w), w) == p - 1
    ensures p == w ==> Scale(AtPixel(p, w), w) == w - 1
  {
    Follows(p as real, w);
    Between(Scale(AtPixel(p, w), w), p);
    if p == w {
      FarEdge(w);
    }
  }

  // What is lost when the middle of a pixel's coordinate is cut to a whole one.
  function Remainder(p: int, w: int): int
    requires w > 0
  {
    (131070 * p + w) % (2 * w)
  }

  lemma CutExactly(p: int, w: int)
    requires 0 <= p <= w && 0 < w
    ensures 2 * (AtPixel(p, w) * w) == 131070 * p + w - Remainder(p, w)
  {
    var n := AtPixel(p, w);
    Rounded(p as real, w, n);
    var t := n * w;
    InIntegers(t, p, w);
    DivisionIsUnique(131070 * p + w, 2 * w, n);
  }

  lemma InIntegers(t: int, p: int, w: int)
    requires 2.0 * t as real <= 131070.0 * p as real + w as real
    requires 131070.0 * p as real < 2.0 * t as real + w as real
    ensures 2 * t <= 131070 * p + w < 2 * t + 2 * w
  {
    assert (2 * t) as real == 2.0 * t as real && (131070 * p) as real == 131070.0 * p as real;
  }

  lemma {:induction false} MultiplesApart(x: int, y: int, b: int)
    requires b > 0
    ensures x < y ==> x * b + b <= y * b
    decreases y - x
  {
    assert (x + 1) * b == x * b + b;
    if x + 1 < y {
      MultiplesApart(x + 1, y, b);
    }
  }

  lemma DivisionIsUnique(a: int, b: int, n: int)
    requires b > 0 && n * b <= a < n * b + b
    ensures a % b == a - n * b
  {
    var q := a / b;
    assert a == q * b + a % b;
    MultiplesApart(q, n, b);
    MultiplesApart(n, q, b);
  }

  // For every width up to 65536 and every pixel: exactly when it comes back as
  // itself, and when as itself or one less.
  lemma ComesBackIff(p: int, w: int)
    requires 0 <= p <= w <= 65536 && 0 < w
    ensures var k := Scale(AtPixel(p, w), w);
      && p - 2 <= k <= p
      && (k == p <==> Remainder(p, w) <= w - 2 * p)
      && (k >= p - 1 <==> Remainder(p, w) <= w + 131072 - 2 * p)
  {
    CutExactly(p, w);
    var t := AtPixel(p, w) * w;
    Rounded(p as real, w, AtPixel(p, w));
    assert Scale(AtPixel(p, w), w) == t / 65536;
    assert 0 <= Remainder(p, w) < 2 * w;
  }

  // Two pixels short does happen on wider screens.
  lemma TwoShort()
    ensures Scale(AtPixel(43676, 43804), 43804) == 43674
  {
    var p, size := 43676.0, 43804.0;
    OnScreenRounds(p, size);
    assert p / size * 65535.0 == 43676.0 * 65535.0 / 43804.0;
    assert AtPixel(43676, 43804) == 65343;
  }

  // ---- Runs ----------------------------------------------------------------

  predicate OnScreen(s: Screen, c: CursorAt) {
    0.0 <= c.x <= s.width && 0.0 <= c.y <= s.height
  }

  // For every run of events from a position on the screen: the cursor stays on
  // it, and every packet's coordinates are in range.
  lemma {:induction false} PacketsInRange(s: Screen, c: CursorAt, ms: seq<Motion>)
    requires s.width > 0.0 && s.height > 0.0 && OnScreen(s, c)
    ensures OnScreen(s, Moves(s, c, ms).0)
    ensures |Moves(s, c, ms).1| == |ms|
    ensures forall i :: 0 <= i < |ms| ==> UinputProofs.InRange(Moves(s, c, ms).1[i])
  {
    if ms == [] {
    } else {
      var front, m := ms[..|ms| - 1], ms[|ms| - 1];
      PacketsInRange(s, c, front);
      var c' := Move(s, Moves(s, c, front).0, m);
      Monotone(c'.x, c'.x, s.width);
      Monotone(c'.y, c'.y, s.height);
    }
  }

  // ---- Where a run leads ---------------------------------------------------

  function Total(d: Motion -> int, ms: seq<Motion>): int {
    if ms == [] then 0
    else Total(d, ms[..|ms| - 1]) + if ms[|ms| - 1].wheel == 0 then d(ms[|ms| - 1]) else 0
  }

  // Where the movements alone would put one coordinate of the cursor.
  function Unclamped(from: real, scale: real, total: int): real {
    from + total as real * scale
  }

  lemma UnclampedStep(from: real, scale: real, total: int, d: int)
    ensures Unclamped(from, scale, total + d) == Unclamped(from, scale, total) + d as real * scale
  {
    assert (total + d) as real == total as real + d as real;
  }

  function Free(s: Screen, c: CursorAt, ms: seq<Motion>): CursorAt {
    CursorAt(Unclamped(c.x, s.scale, Total((m: Motion) => m.dx, ms)), Unclamped(c.y, s.scale, Total((m: Motion) => m.dy, ms)))
  }

  lemma FreeStep(s: Screen, c: CursorAt, ms: seq<Motion>)
    requires ms != [] && OnScreen(s, Free(s, c, ms))
    ensures Move(s, Free(s, c, ms[..|ms| - 1]), ms[|ms| - 1]) == Free(s, c, ms)
  {
    var front, m := ms[..|ms| - 1], ms[|ms| - 1];
    UnclampedStep(c.x, s.scale, Total((m: Motion) => m.dx, front), m.dx);
    UnclampedStep(c.y, s.scale, Total((m: Motion) => m.dy, front), m.dy);
  }

  function Apart(a: real, b: real): real {
    if a < b then b - a else a - b
  }

  // A movement leaves the cursor at the place on the screen nearest to where it
  // points; a turn of the wheel leaves it alone.
  lemma NearestOnScreen(s: Screen, c: CursorAt, m: Motion, q: CursorAt)
    requires s.width >= 0.0 && s.height >= 0.0 && OnScreen(s, q)
    ensures m.wheel != 0 ==> Move(s, c, m) == c
    ensures m.wheel == 0 ==>
      var to, at := CursorAt(c.x + m.dx as real * s.scale, c.y + m.dy as real * s.scale), Move(s, c, m);
      OnScreen(s, at) && Apart(at.x, to.x) <= Apart(q.x, to.x) && Apart(at.y, to.y) <= Apart(q.y, to.y)
  {
  }

  // A run that never reaches past an edge is lossless: the cursor ends where the
  // movements alone put it, and wheel turns do not count.
  lemma {:induction false} InteriorRunsAreExact(s: Screen, c: CursorAt, ms: seq<Motion>)
    requires forall i :: 0 <= i <= |ms| ==> OnScreen(s, Free(s, c, ms[..i]))
    ensures Moves(s, c, ms).0 == Free(s, c, ms)
    decreases |ms|
  {
    if ms == [] {
    } else {
      var front := ms[..|ms| - 1];
      forall i | 0 <= i <= |front|
        ensures front[..i] == ms[..i]
      {
      }
      InteriorRunsAreExact(s, c, front);
      assert ms[..|ms|] == ms;
      FreeStep(s, c, ms);
    }
  }

  lemma LastPacket(s: Screen, c: CursorAt, ms: seq<Motion>, w: int, h: int)
    requires ms != []
    ensures var (c', sent) := Moves(s, c, ms);
      var p := UinputProofs.PlayMouse(false, w, h, sent).0;
      p.x == Scale(PixelToAbsolute(c'.x, s.width), w) && p.y == Scale(PixelToAbsolute(c'.y, s.height), h)
  {
  }

  // Sender and receiver together: whatever the movements and wheel turns, on
  // screens of the same size the movements written to the receiver's device put
  // its cursor less than two and a half pixels from the sender's.
  lemma CursorFollowed(w: int, h: int, scale: real, c: CursorAt, ms: seq<Motion>)
    requires 0 < w <= 65536 && 0 < h <= 65536 && ms != []
    requires OnScreen(Screen(w as real, h as real, scale), c)
    ensures var (c', sent) := Moves(Screen(w as real, h as real, scale), c, ms);
      var written := UinputProofs.PlayMouse(false, w, h, sent).1;
      && c'.x - 2.5 < UinputProofs.Travel(written, 0) as real < c'.x + 1.0
      && c'.y - 2.5 < UinputProofs.Travel(written, 1) as real < c'.y + 1.0
  {
    var s := Screen(w as real, h as real, scale);
    PacketsInRange(s, c, ms);
    var (c', sent) := Moves(s, c, ms);
    UinputProofs.TravelIsPosition(w, h, sent, REL_X);
    UinputProofs.TravelIsPosition(w, h, sent, REL_Y);
    LastPacket(s, c, ms, w, h);
    Follows(c'.x, w);
    Follows(c'.y, h);
  }

  // ---- What the packets say ------------------------------------------------

  // The position the packet was sent from, the wheel in 32 bits, and the message.
  predicate Says(s: Screen, at: CursorAt, m: Motion, p: MousePacket) {
    && p.x == PixelToAbsolute(at.x, s.width) && p.y == PixelToAbsolute(at.y, s.height)
    && (p.wheelDelta - m.wheel) % 0x1_0000_0000 == 0
    && p.flags == if m.wheel != 0 then 0x20A else 0x200
  }

  lemma PacketForSays(s: Screen, at: CursorAt, m: Motion)
    ensures Says(s, at, m, PacketFor(s, at, m))
  {
    Truncates(m.wheel);
  }

  lemma Truncates(v: int)
    ensures (TruncateToInt32(v) - v) % 0x1_0000_0000 == 0
  {
  }

  lemma {:induction false} PacketSays(s: Screen, c: CursorAt, ms: seq<Motion>, i: nat)
    requires i < |ms|
    ensures |Moves(s, c, ms).1| == |ms| && Says(s, Moves(s, c, ms[..i + 1]).0, ms[i], Moves(s, c, ms).1[i])
    decreases |ms|
  {
    var n := |ms| - 1;
    var front := ms[..n];
    if n == 0 {
      assert front == [];
    } else {
      PacketSays(s, c, front, if i < n then i else 0);
    }
    if i < n {
      assert front[..i + 1] == ms[..i + 1];
    } else {
      assert ms[..n + 1] == ms;
      PacketForSays(s, Moves(s, c, ms).0, ms[n]);
    }
  }

  // For every run, each packet says where the cursor then is, how far the wheel
  // was turned and which of the two messages it is.
  lemma PacketsSay(s: Screen, c: CursorAt, ms: seq<Motion>)
    ensures |Moves(s, c, ms).1| == |ms|
    ensures forall i :: 0 <= i < |ms| ==> Says(s, Moves(s, c, ms[..i + 1]).0, ms[i], Moves(s, c, ms).1[i])
  {
    if ms != [] {
      PacketSays(s, c, ms, 0);
    }
    forall i | 0 <= i < |ms|
      ensures Says(s, Moves(s, c, ms[..i + 1]).0, ms[i], Moves(s, c, ms).1[i])
    {
      PacketSays(s, c, ms, i);
    }
  }

  function WheelTotal(ms: seq<Motion>): int {
    if ms == [] then 0 else WheelTotal(ms[..|ms| - 1]) + ms[|ms| - 1].wheel
  }

  // The wheel turns come in whole notches, as the capture makes them.
  ghost predicate WholeNotches(ms: seq<Motion>) {
    forall i :: 0 <= i < |ms| ==> ms[i].wheel % 120 == 0 && -0x8000_0000 <= ms[i].wheel < 0x8000_0000
  }

  lemma NotchesOfPacket(m: Motion, p: MousePacket)
    requires m.wheel % 120 == 0 && -0x8000_0000 <= m.wheel < 0x8000_0000
    requires (p.wheelDelta - m.wheel) % 0x1_0000_0000 == 0
    ensures 120 * UinputProofs.Notches(p.wheelDelta) == m.wheel
  {
  }

  lemma {:induction false} NotchesArrive(s: Screen, c: CursorAt, ms: seq<Motion>)
    requires WholeNotches(ms)
    ensures 120 * UinputProofs.AllNotches(Moves(s, c, ms).1) == WheelTotal(ms)
    decreases |ms|
  {
    if ms == [] {
    } else {
      var n := |ms| - 1;
      NotchesArrive(s, c, ms[..n]);
      PacketsSay(s, c, ms);
      var sent := Moves(s, c, ms).1;
      assert sent[..n] == Moves(s, c, ms[..n]).1;
      NotchesOfPacket(ms[n], sent[n]);
    }
  }

  lemma {:induction false} NoButtonMessages(packets: seq<MousePacket>)
    requires forall i :: 0 <= i < |packets| ==> packets[i].flags == 0x200 || packets[i].flags == 0x20A
    ensures !UinputProofs.LastWas(packets, 0x201, 0x202) && !UinputProofs.LastWas(packets, 0x204, 0x205)
    ensures !UinputProofs.LastWas(packets, 0x207, 0x208)
    ensures !UinputProofs.LastWasX(packets, 1) && !UinputProofs.LastWasX(packets, 2)
    decreases |packets|
  {
    if packets == [] {
    } else {
      NoButtonMessages(packets[..|packets| - 1]);
    }
  }

  // Sender and receiver together: after any run the receiver's wheel has turned by
  // as many notches as the sender's, in the same direction, and no button is down.
  lemma ScrollArrives(absolute: bool, w: int, h: int, s: Screen, c: CursorAt, ms: seq<Motion>)
    requires WholeNotches(ms)
    ensures var written := UinputProofs.PlayMouse(absolute, w, h, Moves(s, c, ms).1).1;
      && 120 * UinputProofs.Travel(written, 8) == WheelTotal(ms)
      && UinputProofs.DownAfter({}, written) == {}
  {
    var sent := Moves(s, c, ms).1;
    UinputProofs.ScrollTotal(absolute, w, h, sent);
    NotchesArrive(s, c, ms);
    PacketsSay(s, c, ms);
    UinputProofs.ButtonsIff(absolute, w, h, sent);
    NoButtonMessages(sent);
    OnlyFive(UinputProofs.DownAfter({}, UinputProofs.PlayMouse(absolute, w, h, sent).1));
  }

  lemma OnlyFive(down: set<uint16>)
    requires 0x110 !in down && 0x111 !in down && 0x112 !in down && 0x113 !in down && 0x114 !in down
    requires forall c :: c in down ==> 0x110 <= c <= 0x114
    ensures down == {}
  {
  }
}
