/** What the virtual devices have been told agrees with what the object tracks,
    after every sequence of calls. */
module UinputProofs {
  import opened Wrappers
  import opened Bytes
  import opened Capture
  import opened Keyboard
  import opened Uinput

  // ---- Reading a device's events -------------------------------------------

  // Event types and codes are those of Linux's input-event-codes.h: type 1 is a
  // key, 2 a relative and 3 an absolute axis; 0 and 1 are the axes, 8 the wheel.

  // The keys down after some events, from those down before.
  function DownAfter(down: set<uint16>, es: seq<InputEvent>): set<uint16> {
    if es == [] then down
    else
      var before, e := DownAfter(down, es[..|es| - 1]), es[|es| - 1];
      if e.typ == 1 && e.value == 1 then before + {e.code}
      else if e.typ == 1 && e.value == 0 then before - {e.code}
      else before
  }

  predicate IsPress(e: InputEvent) {
    e.typ == 1 && e.value == 1
  }

  // Between two presses of one key there is a release of it.
  ghost predicate Alternates(es: seq<InputEvent>) {
    forall i, j :: 0 <= i < j < |es| && IsPress(es[i]) && IsPress(es[j]) && es[i].code == es[j].code ==>
      KeyUp(es[i].code) in es[i..j]
  }

  // The sum of the relative movements along one axis.
  function Travel(es: seq<InputEvent>, axis: uint16): int {
    if es == [] then 0
    else
      var e := es[|es| - 1];
      Travel(es[..|es| - 1], axis) + if e.typ == 2 && e.code == axis then e.value else 0
  }

  // The last absolute position along one axis.
  function LastAbsolute(es: seq<InputEvent>, axis: uint16): Option<int32> {
    if es == [] then None
    else
      var e := es[|es| - 1];
      if e.typ == 3 && e.code == axis then Some(e.value) else LastAbsolute(es[..|es| - 1], axis)
  }

  lemma SnocParts<T>(s: seq<T>, e: T)
    ensures (s + [e])[..|s|] == s && (s + [e])[|s|] == e
  {
  }

  lemma FrontLast<T>(s: seq<T>)
    requires s != []
    ensures s[..|s| - 1] + [s[|s| - 1]] == s
  {
  }

  lemma {:induction false} DownAfterAppend(down: set<uint16>, a: seq<InputEvent>, b: seq<InputEvent>)
    ensures DownAfter(down, a + b) == DownAfter(DownAfter(down, a), b)
  {
    if b == [] {
      assert a + b == a;
    } else {
      var front, e := b[..|b| - 1], b[|b| - 1];
      DownAfterAppend(down, a, front);
      Associative(a, front, [e]);
      FrontLast(b);
      SnocParts(a + front, e);
    }
  }

  lemma {:induction false} TravelAppend(a: seq<InputEvent>, b: seq<InputEvent>, axis: uint16)
    ensures Travel(a + b, axis) == Travel(a, axis) + Travel(b, axis)
  {
    if b == [] {
      assert a + b == a;
    } else {
      var front, e := b[..|b| - 1], b[|b| - 1];
      TravelAppend(a, front, axis);
      Associative(a, front, [e]);
      FrontLast(b);
      SnocParts(a + front, e);
    }
  }

  lemma {:induction false} LastAbsoluteAppend(a: seq<InputEvent>, b: seq<InputEvent>, axis: uint16)
    ensures LastAbsolute(a + b, axis) ==
      if LastAbsolute(b, axis).Some? then LastAbsolute(b, axis) else LastAbsolute(a, axis)
  {
    if b == [] {
      assert a + b == a;
    } else {
      var front, e := b[..|b| - 1], b[|b| - 1];
      LastAbsoluteAppend(a, front, axis);
      Associative(a, front, [e]);
      FrontLast(b);
      SnocParts(a + front, e);
    }
  }

  // ---- Keyboard ------------------------------------------------------------

  datatype KeyCall =
    | Packet(vk: int32, flags: int32)  // InjectKeyboard
    | ReleaseKeys(order: seq<uint16>)  // ReleaseAllKeys, and how the map range went

  function Effect(vkToLinux: map<int32, uint16>, pressed: set<uint16>, c: KeyCall): (set<uint16>, seq<InputEvent>) {
    match c
    case Packet(vk, flags) => Inject(vkToLinux, pressed, vk, flags)
    case ReleaseKeys(order) => ({}, ReleaseAll(order))
  }

  function Play(vkToLinux: map<int32, uint16>, calls: seq<KeyCall>): (set<uint16>, seq<InputEvent>) {
    if calls == [] then ({}, [])
    else
      var (pressed, written) := Play(vkToLinux, calls[..|calls| - 1]);
      var (pressed', more) := Effect(vkToLinux, pressed, calls[|calls| - 1]);
      (pressed', written + more)
  }

  // Every range over the map lists exactly the tracked keys.
  ghost predicate Ranged(vkToLinux: map<int32, uint16>, calls: seq<KeyCall>) {
    forall i :: 0 <= i < |calls| && calls[i].ReleaseKeys? ==>
      Enumerates(calls[i].order, Play(vkToLinux, calls[..i]).0)
  }

  lemma KeyUpBit(flags: int32)
    ensures IsKeyUp(flags) <==> flags % 0x100 >= 0x80
  {
  }

  // What the calls ask for: the last one about this key did not have bit 7, the
  // key-up bit, set in its flags.
  predicate Wanted(vkToLinux: map<int32, uint16>, calls: seq<KeyCall>, code: uint16) {
    calls != [] &&
    match calls[|calls| - 1]
    case ReleaseKeys(_) => false
    case Packet(vk, flags) =>
      if vk in vkToLinux && vkToLinux[vk] == code then flags % 0x100 < 0x80
      else Wanted(vkToLinux, calls[..|calls| - 1], code)
  }

  lemma {:induction false} UpWasReleased(es: seq<InputEvent>, i: nat)
    requires i < |es| && IsPress(es[i]) && es[i].code !in DownAfter({}, es)
    ensures KeyUp(es[i].code) in es[i..]
  {
    var n := |es| - 1;
    if es[n] == KeyUp(es[i].code) {
      assert es[i..][n - i] == es[n];
    } else if i < n {
      UpWasReleased(es[..n], i);
      assert es[i..n] == es[..n][i..] && es[i..] == es[i..n] + [es[n]];
    }
  }

  lemma AlternatesSnoc(es: seq<InputEvent>, e: InputEvent)
    requires Alternates(es) && (IsPress(e) ==> e.code !in DownAfter({}, es))
    ensures Alternates(es + [e])
  {
    var all := es + [e];
    forall i, j | 0 <= i < j < |all| && IsPress(all[i]) && IsPress(all[j]) && all[i].code == all[j].code
      ensures KeyUp(all[i].code) in all[i..j]
    {
      assert all[i..j] == es[i..j];
      if j == |es| {
        UpWasReleased(es, i);
        assert es[i..j] == es[i..];
      }
    }
  }

  lemma {:induction false} AllReleased(down: set<uint16>, es: seq<InputEvent>, order: seq<uint16>)
    requires Alternates(es) && down == DownAfter({}, es)
    ensures DownAfter({}, es + KeyUps(order)) == (set c | c in down && c !in order)
    ensures Alternates(es + KeyUps(order))
  {
    if order == [] {
      assert es + KeyUps(order) == es;
    } else {
      var front, code := order[..|order| - 1], order[|order| - 1];
      AllReleased(down, es, front);
      FrontLast(order);
      assert KeyUps(order) == KeyUps(front) + [KeyUp(code)];
      Associative(es, KeyUps(front), [KeyUp(code)]);
      SnocParts(es + KeyUps(front), KeyUp(code));
      AlternatesSnoc(es + KeyUps(front), KeyUp(code));
      assert forall c :: c in order <==> c in front || c == code;
    }
  }

  // Writing an event and a report.
  lemma KeyThenSyn(es: seq<InputEvent>, e: InputEvent)
    requires Alternates(es) && (IsPress(e) ==> e.code !in DownAfter({}, es))
    ensures Alternates(es + [e, SYN])
    ensures DownAfter({}, es + [e, SYN]) == DownAfter(DownAfter({}, es), [e])
  {
    assert es + [e, SYN] == (es + [e]) + [SYN];
    SnocParts(es + [e], SYN);
    SnocParts(es, e);
    assert [e][..0] == [];
    AlternatesSnoc(es, e);
    AlternatesSnoc(es + [e], SYN);
  }

  lemma EffectAgrees(vkToLinux: map<int32, uint16>, es: seq<InputEvent>, pressed: set<uint16>, c: KeyCall)
    requires Alternates(es) && DownAfter({}, es) == pressed
    requires c.ReleaseKeys? ==> Enumerates(c.order, pressed)
    ensures var (pressed', more) := Effect(vkToLinux, pressed, c);
      Alternates(es + more) && DownAfter({}, es + more) == pressed'
  {
    match c
    case Packet(vk, flags) =>
      assert es + [] == es;
      if vk in vkToLinux {
        var code := vkToLinux[vk];
        if IsKeyUp(flags) {
          KeyThenSyn(es, KeyUp(code));
          assert [KeyUp(code)][..0] == [];
        } else if code !in pressed {
          KeyThenSyn(es, KeyDown(code));
          assert [KeyDown(code)][..0] == [];
        }
      }
    case ReleaseKeys(order) =>
      AllReleased(pressed, es, order);
      var ups := es + KeyUps(order);
      Associative(es, KeyUps(order), [SYN]);
      SnocParts(ups, SYN);
      AlternatesSnoc(ups, SYN);
  }

  // For every sequence of calls and any key map, one-to-one or not: reading the
  // keyboard's events gives exactly the tracked keys, which are exactly those
  // last asked to be down, and no key is pressed twice without a release.
  lemma {:induction false} KeyboardAgrees(vkToLinux: map<int32, uint16>, calls: seq<KeyCall>)
    requires Ranged(vkToLinux, calls)
    ensures var (pressed, written) := Play(vkToLinux, calls);
      && DownAfter({}, written) == pressed
      && Alternates(written)
      && forall c :: c in pressed <==> Wanted(vkToLinux, calls, c)
    decreases |calls|
  {
    if calls == [] {
    } else {
      var front, c := calls[..|calls| - 1], calls[|calls| - 1];
      forall i | 0 <= i < |front|
        ensures front[..i] == calls[..i]
      {
      }
      KeyboardAgrees(vkToLinux, front);
      var (pressed, written) := Play(vkToLinux, front);
      EffectAgrees(vkToLinux, written, pressed, c);
      if c.Packet? {
        KeyUpBit(c.flags);
      }
    }
  }

  // After ReleaseAllKeys every key is up, and each tracked one was released once.
  lemma ReleaseLeavesAllUp(vkToLinux: map<int32, uint16>, calls: seq<KeyCall>, order: seq<uint16>, code: uint16)
    requires Ranged(vkToLinux, calls + [ReleaseKeys(order)])
    ensures DownAfter({}, Play(vkToLinux, calls + [ReleaseKeys(order)]).1) == {}
    ensures multiset(ReleaseAll(order))[KeyUp(code)] == if Wanted(vkToLinux, calls, code) then 1 else 0
  {
    var all := calls + [ReleaseKeys(order)];
    SnocParts(calls, ReleaseKeys(order));
    KeyboardAgrees(vkToLinux, all);
    forall i | 0 <= i < |calls|
      ensures calls[..i] == all[..i] && calls[i] == all[i]
    {
    }
    KeyboardAgrees(vkToLinux, calls);
    OneUpEach(order, Play(vkToLinux, calls).0, code);
  }

  lemma {:induction false} OneUpEach(order: seq<uint16>, codes: set<uint16>, c: uint16)
    requires Enumerates(order, codes)
    ensures multiset(KeyUps(order))[KeyUp(c)] == if c in codes then 1 else 0
    decreases |order|
  {
    if order == [] {
    } else {
      var n := |order| - 1;
      FrontLast(order);
      OneUpEach(order[..n], codes - {order[n]}, c);
      assert KeyUps(order) == KeyUps(order[..n]) + [KeyUp(order[n])];
    }
  }

  // ---- Every key-up is written ---------------------------------------------

  function Count(es: seq<InputEvent>, e: InputEvent): nat {
    multiset(es)[e]
  }

  lemma CountAppend(a: seq<InputEvent>, b: seq<InputEvent>, e: InputEvent)
    ensures Count(a + b, e) == Count(a, e) + Count(b, e)
  {
  }

  // The key-ups asked for, whether the key is down or not, and one for each key
  // that is down when all are released.
  function UpsAsked(vkToLinux: map<int32, uint16>, calls: seq<KeyCall>, code: uint16): nat {
    if calls == [] then 0
    else
      var front := calls[..|calls| - 1];
      UpsAsked(vkToLinux, front, code) +
      match calls[|calls| - 1]
      case Packet(vk, flags) => if vk in vkToLinux && vkToLinux[vk] == code && flags % 0x100 >= 0x80 then 1 else 0
      case ReleaseKeys(_) => if Wanted(vkToLinux, front, code) then 1 else 0
  }

  lemma UpsOfPacket(vkToLinux: map<int32, uint16>, pressed: set<uint16>, vk: int32, flags: int32, code: uint16)
    ensures Count(Inject(vkToLinux, pressed, vk, flags).1, InputEvent(1, code, 0)) ==
      if vk in vkToLinux && vkToLinux[vk] == code && flags % 0x100 >= 0x80 then 1 else 0
  {
    KeyUpBit(flags);
    if vk in vkToLinux {
      assert KeyUp(vkToLinux[vk]) == InputEvent(1, code, 0) <==> vkToLinux[vk] == code;
    }
  }

  lemma UpsOfRelease(pressed: set<uint16>, order: seq<uint16>, code: uint16)
    requires Enumerates(order, pressed)
    ensures Count(ReleaseAll(order), InputEvent(1, code, 0)) == if code in pressed then 1 else 0
  {
    OneUpEach(order, pressed, code);
    CountAppend(KeyUps(order), [SYN], InputEvent(1, code, 0));
  }

  // For every call sequence and any key map: the device is sent exactly as many
  // key-ups of a key as are asked for, so a lost state here never keeps one back.
  lemma {:induction false} UpsWritten(vkToLinux: map<int32, uint16>, calls: seq<KeyCall>, code: uint16)
    requires Ranged(vkToLinux, calls)
    ensures Count(Play(vkToLinux, calls).1, InputEvent(1, code, 0)) == UpsAsked(vkToLinux, calls, code)
    decreases |calls|
  {
    if calls == [] {
    } else {
      var front, c := calls[..|calls| - 1], calls[|calls| - 1];
      forall i | 0 <= i < |front|
        ensures front[..i] == calls[..i]
      {
      }
      UpsWritten(vkToLinux, front, code);
      KeyboardAgrees(vkToLinux, front);
      var (pressed, written) := Play(vkToLinux, front);
      match c {
        case Packet(vk, flags) => UpsOfPacket(vkToLinux, pressed, vk, flags, code);
        case ReleaseKeys(order) => UpsOfRelease(pressed, order, code);
      }
      CountAppend(written, Effect(vkToLinux, pressed, c).1, InputEvent(1, code, 0));
    }
  }

  // ---- Mouse ---------------------------------------------------------------

  function PlayMouse(absolute: bool, w: int, h: int, packets: seq<MousePacket>): (PointerState, seq<InputEvent>) {
    if packets == [] then (PointerState(0, 0, NO_BUTTONS), [])
    else
      var (p, written) := PlayMouse(absolute, w, h, packets[..|packets| - 1]);
      var m := packets[|packets| - 1];
      (Moved(p, w, h, m), written + MouseEvents(absolute, p, w, h, m))
  }

  // ---- One packet's events, read back --------------------------------------

  lemma KeysOfParts(down: set<uint16>, x: seq<InputEvent>, y: seq<InputEvent>, b: seq<InputEvent>, s: seq<InputEvent>)
    requires DownAfter(down, x) == down && DownAfter(down, y) == down
    requires DownAfter(DownAfter(down, b), s) == DownAfter(down, b)
    ensures DownAfter(down, x + y + b + s) == DownAfter(down, b)
    ensures DownAfter(down, x + y + b + s + [SYN]) == DownAfter(down, b)
  {
    DownAfterAppend(down, x, y);
    DownAfterAppend(down, x + y, b);
    DownAfterAppend(down, x + y + b, s);
    SnocParts(x + y + b + s, SYN);
  }

  lemma TravelOfParts(x: seq<InputEvent>, y: seq<InputEvent>, b: seq<InputEvent>, s: seq<InputEvent>, axis: uint16)
    ensures Travel(x + y + b + s, axis) == Travel(x, axis) + Travel(y, axis) + Travel(b, axis) + Travel(s, axis)
    ensures Travel(x + y + b + s + [SYN], axis) == Travel(x + y + b + s, axis)
  {
    TravelAppend(x, y, axis);
    TravelAppend(x + y, b, axis);
    TravelAppend(x + y + b, s, axis);
    SnocParts(x + y + b + s, SYN);
  }

  lemma AbsoluteOfParts(x: seq<InputEvent>, y: seq<InputEvent>, b: seq<InputEvent>, s: seq<InputEvent>, axis: uint16)
    requires LastAbsolute(b, axis).None? && LastAbsolute(s, axis).None?
    ensures LastAbsolute(x + y + b + s + [SYN], axis) ==
      if LastAbsolute(y, axis).Some? then LastAbsolute(y, axis) else LastAbsolute(x, axis)
  {
    LastAbsoluteAppend(x, y, axis);
    LastAbsoluteAppend(x + y, b, axis);
    LastAbsoluteAppend(x + y + b, s, axis);
    SnocParts(x + y + b + s, SYN);
  }

  lemma AxisRead(absolute: bool, axis: uint16, was: int, now: int, down: set<uint16>, a: uint16)
    ensures var es := AxisEvents(absolute, axis, was, now);
      && DownAfter(down, es) == down
      && Travel(es, a) == (if a == axis && !absolute then TruncateToInt32(now - was) else 0)
      && LastAbsolute(es, a) == if a == axis && absolute then Some(TruncateToInt32(now)) else None
  {
    var es := AxisEvents(absolute, axis, was, now);
    if es != [] {
      assert es[..0] == [];
    }
  }

  lemma WheelRead(wheelDelta: int32, down: set<uint16>, a: uint16)
    requires a != REL_WHEEL
    ensures var es := WheelEvents(wheelDelta);
      DownAfter(down, es) == down && Travel(es, a) == 0 && LastAbsolute(es, a) == None
  {
    var es := WheelEvents(wheelDelta);
    if es != [] {
      assert es[..0] == [];
    }
  }

  lemma ButtonRead(held: ButtonState, flags: int32, wheelDelta: int32, down: set<uint16>)
    requires forall c :: c in down <==> Holds(held, c)
    ensures var b := ButtonOf(flags, wheelDelta);
      forall c :: c in DownAfter(down, ButtonEvents(b)) <==> Holds(Buttons(held, b), c)
  {
    var es := ButtonEvents(ButtonOf(flags, wheelDelta));
    if es != [] {
      assert es[..0] == [];
    }
  }

  lemma ButtonMoves(flags: int32, wheelDelta: int32, a: uint16)
    ensures var es := ButtonEvents(ButtonOf(flags, wheelDelta));
      Travel(es, a) == 0 && LastAbsolute(es, a) == None
  {
    var es := ButtonEvents(ButtonOf(flags, wheelDelta));
    if es != [] {
      assert es[..0] == [];
    }
  }

  function Coordinate(p: PointerState, axis: uint16): int {
    if axis == 0 then p.x else p.y
  }

  // What one packet writes: the keys, and the movements along one axis.
  lemma MouseKeys(absolute: bool, p: PointerState, w: int, h: int, m: MousePacket, down: set<uint16>)
    requires forall c :: c in down <==> Holds(p.buttons, c)
    ensures forall c :: c in DownAfter(down, MouseEvents(absolute, p, w, h, m)) <==> Holds(Moved(p, w, h, m).buttons, c)
  {
    var q := Moved(p, w, h, m);
    var x, y := AxisEvents(absolute, REL_X, p.x, q.x), AxisEvents(absolute, REL_Y, p.y, q.y);
    var b, s := ButtonEvents(ButtonOf(m.flags, m.wheelDelta)), WheelEvents(m.wheelDelta);
    AxisRead(absolute, REL_X, p.x, q.x, down, REL_X);
    AxisRead(absolute, REL_Y, p.y, q.y, down, REL_Y);
    ButtonRead(p.buttons, m.flags, m.wheelDelta, down);
    WheelRead(m.wheelDelta, DownAfter(down, b), REL_X);
    KeysOfParts(down, x, y, b, s);
  }

  lemma MouseTravel(p: PointerState, w: int, h: int, m: MousePacket, a: uint16)
    requires a == REL_X || a == REL_Y
    ensures Travel(MouseEvents(false, p, w, h, m), a) == TruncateToInt32(Coordinate(Moved(p, w, h, m), a) - Coordinate(p, a))
  {
    var q := Moved(p, w, h, m);
    var x, y := AxisEvents(false, REL_X, p.x, q.x), AxisEvents(false, REL_Y, p.y, q.y);
    var b, s := ButtonEvents(ButtonOf(m.flags, m.wheelDelta)), WheelEvents(m.wheelDelta);
    AxisRead(false, REL_X, p.x, q.x, {}, a);
    AxisRead(false, REL_Y, p.y, q.y, {}, a);
    ButtonMoves(m.flags, m.wheelDelta, a);
    WheelRead(m.wheelDelta, {}, a);
    TravelOfParts(x, y, b, s, a);
  }

  lemma MouseAbsolute(p: PointerState, w: int, h: int, m: MousePacket, a: uint16)
    requires a == REL_X || a == REL_Y
    ensures LastAbsolute(MouseEvents(true, p, w, h, m), a) == Some(TruncateToInt32(Coordinate(Moved(p, w, h, m), a)))
  {
    var q := Moved(p, w, h, m);
    var x, y := AxisEvents(true, REL_X, p.x, q.x), AxisEvents(true, REL_Y, p.y, q.y);
    var b, s := ButtonEvents(ButtonOf(m.flags, m.wheelDelta)), WheelEvents(m.wheelDelta);
    AxisRead(true, REL_X, p.x, q.x, {}, a);
    AxisRead(true, REL_Y, p.y, q.y, {}, a);
    ButtonMoves(m.flags, m.wheelDelta, a);
    WheelRead(m.wheelDelta, {}, a);
    AbsoluteOfParts(x, y, b, s, a);
  }

  // ---- The mouse over every run --------------------------------------------

  // Equal as 32-bit words.
  predicate Congruent(a: int, b: int) {
    (a - b) % 0x1_0000_0000 == 0
  }

  lemma CongruentStep(travel: int, was: int, now: int)
    requires Congruent(travel, was)
    ensures Congruent(travel + TruncateToInt32(now - was), now)
  {
  }

  ghost predicate Agree(absolute: bool, started: bool, p: PointerState, written: seq<InputEvent>, axis: uint16) {
    && (forall c :: c in DownAfter({}, written) <==> Holds(p.buttons, c))
    && (!absolute ==> Congruent(Travel(written, axis), Coordinate(p, axis)))
    && (absolute && started ==> LastAbsolute(written, axis) == Some(TruncateToInt32(Coordinate(p, axis))))
  }

  lemma AgreeAppend(absolute: bool, started: bool, p: PointerState, q: PointerState, written: seq<InputEvent>,
        es: seq<InputEvent>, axis: uint16)
    requires Agree(absolute, started, p, written, axis)
    requires forall c :: c in DownAfter(DownAfter({}, written), es) <==> Holds(q.buttons, c)
    requires !absolute ==> Travel(es, axis) == TruncateToInt32(Coordinate(q, axis) - Coordinate(p, axis))
    requires absolute ==> LastAbsolute(es, axis) == Some(TruncateToInt32(Coordinate(q, axis)))
    ensures Agree(absolute, true, q, written + es, axis)
  {
    DownAfterAppend({}, written, es);
    if absolute {
      LastAbsoluteAppend(written, es, axis);
    } else {
      TravelAppend(written, es, axis);
      CongruentStep(Travel(written, axis), Coordinate(p, axis), Coordinate(q, axis));
    }
  }

  lemma AgreeStep(absolute: bool, started: bool, w: int, h: int, p: PointerState, written: seq<InputEvent>,
        m: MousePacket, axis: uint16)
    requires axis == REL_X || axis == REL_Y
    requires Agree(absolute, started, p, written, axis)
    ensures Agree(absolute, true, Moved(p, w, h, m), written + MouseEvents(absolute, p, w, h, m), axis)
  {
    MouseKeys(absolute, p, w, h, m, DownAfter({}, written));
    if absolute {
      MouseAbsolute(p, w, h, m, axis);
    } else {
      MouseTravel(p, w, h, m, axis);
    }
    AgreeAppend(absolute, started, p, Moved(p, w, h, m), written, MouseEvents(absolute, p, w, h, m), axis);
  }

  // For every sequence of packets: the buttons the device shows are the tracked
  // ones; with relative axes the movements written add up to the tracked
  // position modulo 2^32; with absolute axes the last position written is it.
  lemma {:induction false} MouseAgrees(absolute: bool, w: int, h: int, packets: seq<MousePacket>, axis: uint16)
    requires axis == 0 || axis == 1
    ensures var (p, written) := PlayMouse(absolute, w, h, packets);
      Agree(absolute, packets != [], p, written, axis)
    decreases |packets|
  {
    if packets == [] {
    } else {
      var front, m := packets[..|packets| - 1], packets[|packets| - 1];
      MouseAgrees(absolute, w, h, front, axis);
      var (p, written) := PlayMouse(absolute, w, h, front);
      AgreeStep(absolute, front != [], w, h, p, written, m, axis);
    }
  }

  // ---- Which message moves which button ------------------------------------

  // The last packet with one of these two messages had the first of them.
  predicate LastWas(packets: seq<MousePacket>, down: int32, up: int32) {
    packets != [] &&
    var flags := packets[|packets| - 1].flags;
    if flags == down then true else if flags == up then false else LastWas(packets[..|packets| - 1], down, up)
  }

  // The same for the two messages of X button n, whose number is the low half of
  // the wheel field.
  predicate LastWasX(packets: seq<MousePacket>, n: int) {
    packets != [] &&
    var m := packets[|packets| - 1];
    if m.flags == 0x20B && m.wheelDelta % 0x1_0000 == n then true
    else if m.flags == 0x20C && m.wheelDelta % 0x1_0000 == n then false
    else LastWasX(packets[..|packets| - 1], n)
  }

  ghost predicate ButtonsAre(b: ButtonState, packets: seq<MousePacket>) {
    && b.left == LastWas(packets, 0x201, 0x202)
    && b.right == LastWas(packets, 0x204, 0x205)
    && b.middle == LastWas(packets, 0x207, 0x208)
    && b.side == LastWasX(packets, 1)
    && b.extra == LastWasX(packets, 2)
  }

  lemma ButtonsSnoc(b: ButtonState, packets: seq<MousePacket>, m: MousePacket)
    requires ButtonsAre(b, packets)
    ensures ButtonsAre(Buttons(b, ButtonOf(m.flags, m.wheelDelta)), packets + [m])
  {
    SnocParts(packets, m);
  }

  lemma {:induction false} ButtonsTracked(absolute: bool, w: int, h: int, packets: seq<MousePacket>)
    ensures ButtonsAre(PlayMouse(absolute, w, h, packets).0.buttons, packets)
    decreases |packets|
  {
    if packets == [] {
    } else {
      var front := packets[..|packets| - 1];
      ButtonsTracked(absolute, w, h, front);
      ButtonsSnoc(PlayMouse(absolute, w, h, front).0.buttons, front, packets[|packets| - 1]);
      FrontLast(packets);
    }
  }

  // For every packet sequence, read off the packets alone: which of the device's
  // buttons are down, and that it has no other key down.
  lemma ButtonsIff(absolute: bool, w: int, h: int, packets: seq<MousePacket>)
    ensures var down := DownAfter({}, PlayMouse(absolute, w, h, packets).1);
      && (0x110 in down <==> LastWas(packets, 0x201, 0x202))
      && (0x111 in down <==> LastWas(packets, 0x204, 0x205))
      && (0x112 in down <==> LastWas(packets, 0x207, 0x208))
      && (0x113 in down <==> LastWasX(packets, 1))
      && (0x114 in down <==> LastWasX(packets, 2))
      && forall c :: c in down ==> 0x110 <= c <= 0x114
  {
    MouseAgrees(absolute, w, h, packets, 0);
    ButtonsTracked(absolute, w, h, packets);
  }

  // ---- Reports -------------------------------------------------------------

  predicate IsReport(e: InputEvent) {
    e.typ == 0 && e.code == 0 && e.value == 0
  }

  // Everything written has been followed by a report.
  predicate Reported(es: seq<InputEvent>) {
    es == [] || IsReport(es[|es| - 1])
  }

  // No report without something to report.
  predicate NoEmptyReport(es: seq<InputEvent>) {
    forall i :: 0 <= i < |es| && IsReport(es[i]) ==> i > 0 && !IsReport(es[i - 1])
  }

  lemma ReportedAppend(a: seq<InputEvent>, b: seq<InputEvent>)
    requires Reported(a) && Reported(b)
    ensures Reported(a + b)
    ensures NoEmptyReport(a) && NoEmptyReport(b) ==> NoEmptyReport(a + b)
  {
    if b == [] {
      assert a + b == a;
    } else if NoEmptyReport(a) && NoEmptyReport(b) {
      forall i | 0 <= i < |a + b| && IsReport((a + b)[i])
        ensures i > 0 && !IsReport((a + b)[i - 1])
      {
        if i >= |a| {
          assert (a + b)[i] == b[i - |a|];
          assert IsReport(b[i - |a|]);
        } else {
          assert (a + b)[i] == a[i];
        }
      }
    }
  }

  lemma MouseReport(absolute: bool, p: PointerState, w: int, h: int, m: MousePacket)
    ensures var es := MouseEvents(absolute, p, w, h, m);
      Reported(es) && NoEmptyReport(es) && (absolute ==> es != [])
  {
  }

  // After every packet all that was written has been reported, and no report is
  // empty; after every keyboard call likewise everything has been reported.
  lemma {:induction false} MouseReported(absolute: bool, w: int, h: int, packets: seq<MousePacket>)
    ensures Reported(PlayMouse(absolute, w, h, packets).1) && NoEmptyReport(PlayMouse(absolute, w, h, packets).1)
    decreases |packets|
  {
    if packets == [] {
    } else {
      var front, m := packets[..|packets| - 1], packets[|packets| - 1];
      MouseReported(absolute, w, h, front);
      var (p, written) := PlayMouse(absolute, w, h, front);
      MouseReport(absolute, p, w, h, m);
      ReportedAppend(written, MouseEvents(absolute, p, w, h, m));
    }
  }

  lemma {:induction false} KeyboardReported(vkToLinux: map<int32, uint16>, calls: seq<KeyCall>)
    ensures Reported(Play(vkToLinux, calls).1)
    decreases |calls|
  {
    if calls == [] {
    } else {
      var front, c := calls[..|calls| - 1], calls[|calls| - 1];
      KeyboardReported(vkToLinux, front);
      var (pressed, written) := Play(vkToLinux, front);
      var more := Effect(vkToLinux, pressed, c).1;
      assert Reported(more);
      ReportedAppend(written, more);
    }
  }

  // ---- The order of one packet's events ------------------------------------

  // First the axes, then a button, then the wheel, then the report.
  function Rank(e: InputEvent): int {
    if (e.typ == 2 || e.typ == 3) && e.code == 0 then 0
    else if (e.typ == 2 || e.typ == 3) && e.code == 1 then 1
    else if e.typ == 1 then 2
    else if e.typ == 2 && e.code == 8 then 3
    else 4
  }

  // So a click lands where its own packet points, and each comes once at most.
  lemma MovesThenClicks(absolute: bool, p: PointerState, w: int, h: int, m: MousePacket)
    ensures var es := MouseEvents(absolute, p, w, h, m);
      forall i, j :: 0 <= i < j < |es| ==> Rank(es[i]) < Rank(es[j])
  {
    var q := Moved(p, w, h, m);
    var x, y := AxisEvents(absolute, REL_X, p.x, q.x), AxisEvents(absolute, REL_Y, p.y, q.y);
    var b, s := ButtonEvents(ButtonOf(m.flags, m.wheelDelta)), WheelEvents(m.wheelDelta);
    AxisRank(absolute, REL_X, p.x, q.x);
    AxisRank(absolute, REL_Y, p.y, q.y);
    RankedParts(x, y, b, s);
  }

  lemma AxisRank(absolute: bool, axis: uint16, was: int, now: int)
    requires axis == 0 || axis == 1
    ensures var es := AxisEvents(absolute, axis, was, now);
      |es| <= 1 && (es != [] ==> Rank(es[0]) == axis)
  {
  }

  lemma RankedParts(x: seq<InputEvent>, y: seq<InputEvent>, b: seq<InputEvent>, s: seq<InputEvent>)
    requires |x| <= 1 && |y| <= 1 && |b| <= 1 && |s| <= 1
    requires (x != [] ==> Rank(x[0]) == 0) && (y != [] ==> Rank(y[0]) == 1)
    requires (b != [] ==> Rank(b[0]) == 2) && (s != [] ==> Rank(s[0]) == 3)
    ensures RankedUpTo(x + y + b + s, 3) && RankedUpTo(x + y + b + s + [SYN], 4)
  {
    RankedAppend(x, 0, y, 1);
    RankedAppend(x + y, 1, b, 2);
    RankedAppend(x + y + b, 2, s, 3);
    RankedAppend(x + y + b + s, 3, [SYN], 4);
  }

  predicate RankedUpTo(es: seq<InputEvent>, top: int) {
    && (forall i :: 0 <= i < |es| ==> Rank(es[i]) <= top)
    && forall i, j :: 0 <= i < j < |es| ==> Rank(es[i]) < Rank(es[j])
  }

  lemma RankedAppend(a: seq<InputEvent>, top: int, b: seq<InputEvent>, rank: int)
    requires RankedUpTo(a, top) && top < rank && |b| <= 1 && (b != [] ==> Rank(b[0]) == rank)
    ensures RankedUpTo(a + b, rank)
  {
  }

  // ---- Every button message is written -------------------------------------

  // The packets with this message.
  function Messages(packets: seq<MousePacket>, flags: int32): nat {
    if packets == [] then 0
    else Messages(packets[..|packets| - 1], flags) + if packets[|packets| - 1].flags == flags then 1 else 0
  }

  // Those of them about X button n.
  function MessagesX(packets: seq<MousePacket>, flags: int32, n: int): nat {
    if packets == [] then 0
    else
      var m := packets[|packets| - 1];
      MessagesX(packets[..|packets| - 1], flags, n) + if m.flags == flags && m.wheelDelta % 0x1_0000 == n then 1 else 0
  }

  ghost predicate ButtonCounts(es: seq<InputEvent>, packets: seq<MousePacket>) {
    && Count(es, InputEvent(1, 0x110, 1)) == Messages(packets, 0x201)
    && Count(es, InputEvent(1, 0x110, 0)) == Messages(packets, 0x202)
    && Count(es, InputEvent(1, 0x111, 1)) == Messages(packets, 0x204)
    && Count(es, InputEvent(1, 0x111, 0)) == Messages(packets, 0x205)
    && Count(es, InputEvent(1, 0x112, 1)) == Messages(packets, 0x207)
    && Count(es, InputEvent(1, 0x112, 0)) == Messages(packets, 0x208)
    && Count(es, InputEvent(1, 0x113, 1)) == MessagesX(packets, 0x20B, 1)
    && Count(es, InputEvent(1, 0x113, 0)) == MessagesX(packets, 0x20C, 1)
    && Count(es, InputEvent(1, 0x114, 1)) == MessagesX(packets, 0x20B, 2)
    && Count(es, InputEvent(1, 0x114, 0)) == MessagesX(packets, 0x20C, 2)
  }

  // How many such key events a packet asks for.
  function KeyEvents(m: MousePacket, code: uint16, value: int32): nat {
    var b := ButtonOf(m.flags, m.wheelDelta);
    if b.Change? && b.code == code && value == (if b.down then 1 else 0) then 1 else 0
  }

  // The key events among one packet's.
  lemma KeyCount(absolute: bool, p: PointerState, w: int, h: int, m: MousePacket, code: uint16, value: int32)
    ensures Count(MouseEvents(absolute, p, w, h, m), InputEvent(1, code, value)) == KeyEvents(m, code, value)
  {
    var q, e := Moved(p, w, h, m), InputEvent(1, code, value);
    var x, y := AxisEvents(absolute, REL_X, p.x, q.x), AxisEvents(absolute, REL_Y, p.y, q.y);
    var b, s := ButtonEvents(ButtonOf(m.flags, m.wheelDelta)), WheelEvents(m.wheelDelta);
    AxisKeys(absolute, REL_X, p.x, q.x, e);
    AxisKeys(absolute, REL_Y, p.y, q.y, e);
    ButtonKeys(m, code, value);
    CountOne(s, e);
    CountParts(x, y, b, s, e);
  }

  lemma AxisKeys(absolute: bool, axis: uint16, was: int, now: int, e: InputEvent)
    requires e.typ == 1
    ensures Count(AxisEvents(absolute, axis, was, now), e) == 0
  {
    CountOne(AxisEvents(absolute, axis, was, now), e);
  }

  lemma ButtonKeys(m: MousePacket, code: uint16, value: int32)
    ensures Count(ButtonEvents(ButtonOf(m.flags, m.wheelDelta)), InputEvent(1, code, value)) == KeyEvents(m, code, value)
  {
    CountOne(ButtonEvents(ButtonOf(m.flags, m.wheelDelta)), InputEvent(1, code, value));
  }

  lemma CountParts(x: seq<InputEvent>, y: seq<InputEvent>, b: seq<InputEvent>, s: seq<InputEvent>, e: InputEvent)
    requires e.typ == 1
    ensures Count(x + y + b + s, e) == Count(x, e) + Count(y, e) + Count(b, e) + Count(s, e)
    ensures Count(x + y + b + s + [SYN], e) == Count(x + y + b + s, e)
  {
    CountAppend(x, y, e);
    CountAppend(x + y, b, e);
    CountAppend(x + y + b, s, e);
    CountAppend(x + y + b + s, [SYN], e);
  }

  lemma CountOne(es: seq<InputEvent>, e: InputEvent)
    requires |es| <= 1
    ensures Count(es, e) == if es != [] && es[0] == e then 1 else 0
  {
    assert es != [] ==> es == [es[0]];
  }

  lemma CountsStep(es: seq<InputEvent>, more: seq<InputEvent>, packets: seq<MousePacket>, m: MousePacket)
    requires ButtonCounts(es, packets)
    requires forall code, value :: Count(more, InputEvent(1, code, value)) == KeyEvents(m, code, value)
    ensures ButtonCounts(es + more, packets + [m])
  {
    SnocParts(packets, m);
    forall code: uint16, value: int32
      ensures Count(es + more, InputEvent(1, code, value))
           == Count(es, InputEvent(1, code, value)) + Count(more, InputEvent(1, code, value))
    {
      CountAppend(es, more, InputEvent(1, code, value));
    }
  }

  // For every packet sequence: each button message is written, also when the
  // button is tracked as down or up already, and no other key is touched.
  lemma {:induction false} ButtonsWritten(absolute: bool, w: int, h: int, packets: seq<MousePacket>)
    ensures ButtonCounts(PlayMouse(absolute, w, h, packets).1, packets)
    decreases |packets|
  {
    if packets == [] {
    } else {
      var front, m := packets[..|packets| - 1], packets[|packets| - 1];
      ButtonsWritten(absolute, w, h, front);
      var (p, written) := PlayMouse(absolute, w, h, front);
      forall code: uint16, value: int32
        ensures Count(MouseEvents(absolute, p, w, h, m), InputEvent(1, code, value)) == KeyEvents(m, code, value)
      {
        KeyCount(absolute, p, w, h, m, code, value);
      }
      CountsStep(written, MouseEvents(absolute, p, w, h, m), front, m);
      FrontLast(packets);
    }
  }

  // ---- Where the pointer is ------------------------------------------------

  // n is t / 65536, cut toward zero.
  predicate CutDown(n: int, t: int) {
    if t >= 0 then 65536 * n <= t < 65536 * n + 65536 else 65536 * n - 65536 < t <= 65536 * n
  }

  lemma ScaleCuts(v: int32, size: int)
    ensures CutDown(Scale(v, size), v * size)
  {
  }

  // For every packet sequence the tracked position is that of the last packet.
  lemma PositionIs(absolute: bool, w: int, h: int, packets: seq<MousePacket>)
    requires packets != []
    ensures var p, m := PlayMouse(absolute, w, h, packets).0, packets[|packets| - 1];
      CutDown(p.x, m.x * w) && CutDown(p.y, m.y * h)
  {
    var m := packets[|packets| - 1];
    ScaleCuts(m.x, w);
    ScaleCuts(m.y, h);
  }

  predicate InRange(m: MousePacket) {
    0 <= m.x < 65536 && 0 <= m.y < 65536
  }

  lemma ScaleRange(v: int32, size: int)
    requires 0 <= v < 65536 && 0 <= size
    ensures 0 <= Scale(v, size) <= size
    ensures size > 0 ==> Scale(v, size) < size
  {
    assert 0 <= v * size <= 65535 * size;
  }

  lemma SmallMove(d: int)
    requires -0x8000_0000 <= d < 0x8000_0000
    ensures TruncateToInt32(d) == d
  {
  }

  // A coordinate on the screen, whose moves fit 32 bits.
  lemma OnScreen(p: PointerState, w: int, h: int, m: MousePacket, axis: uint16)
    requires 0 < w < 0x8000_0000 && 0 < h < 0x8000_0000 && InRange(m)
    requires 0 <= p.x < w && 0 <= p.y < h
    ensures var q := Moved(p, w, h, m);
      && 0 <= q.x < w && 0 <= q.y < h
      && TruncateToInt32(Coordinate(q, axis) - Coordinate(p, axis)) == Coordinate(q, axis) - Coordinate(p, axis)
  {
    ScaleRange(m.x, w);
    ScaleRange(m.y, h);
    SmallMove(Coordinate(Moved(p, w, h, m), axis) - Coordinate(p, axis));
  }

  lemma TravelStep(w: int, h: int, p: PointerState, written: seq<InputEvent>, m: MousePacket, axis: uint16)
    requires axis == REL_X || axis == REL_Y
    requires 0 < w < 0x8000_0000 && 0 < h < 0x8000_0000 && InRange(m)
    requires 0 <= p.x < w && 0 <= p.y < h && Travel(written, axis) == Coordinate(p, axis)
    ensures Travel(written + MouseEvents(false, p, w, h, m), axis) == Coordinate(Moved(p, w, h, m), axis)
  {
    OnScreen(p, w, h, m, axis);
    MouseTravel(p, w, h, m, axis);
    TravelAppend(written, MouseEvents(false, p, w, h, m), axis);
  }

  // With the coordinates packets really carry, the sum is the position itself
  // and the position is on the screen.
  lemma {:induction false} TravelIsPosition(w: int, h: int, packets: seq<MousePacket>, axis: uint16)
    requires axis == 0 || axis == 1
    requires 0 < w < 0x8000_0000 && 0 < h < 0x8000_0000
    requires forall i :: 0 <= i < |packets| ==> InRange(packets[i])
    ensures var (p, written) := PlayMouse(false, w, h, packets);
      && Travel(written, axis) == Coordinate(p, axis)
      && 0 <= p.x < w && 0 <= p.y < h
    decreases |packets|
  {
    if packets == [] {
    } else {
      var front, m := packets[..|packets| - 1], packets[|packets| - 1];
      assert InRange(m);
      TravelIsPosition(w, h, front, axis);
      var (p, written) := PlayMouse(false, w, h, front);
      OnScreen(p, w, h, m, axis);
      TravelStep(w, h, p, written, m, axis);
    }
  }

  // ---- The wheel -----------------------------------------------------------

  // Whole notches of 120 in either direction, but never less than one.
  function Notches(wheelDelta: int): int {
    if wheelDelta >= 120 then wheelDelta / 120
    else if wheelDelta > 0 then 1
    else if wheelDelta == 0 then 0
    else if wheelDelta > -120 then -1
    else -(-wheelDelta / 120)
  }

  predicate TurnsWheel(e: InputEvent) {
    e.typ == 2 && e.code == 8
  }

  lemma WheelTravel(absolute: bool, p: PointerState, w: int, h: int, m: MousePacket)
    ensures Travel(MouseEvents(absolute, p, w, h, m), REL_WHEEL) == Notches(m.wheelDelta)
  {
    var q := Moved(p, w, h, m);
    var x, y := AxisEvents(absolute, REL_X, p.x, q.x), AxisEvents(absolute, REL_Y, p.y, q.y);
    var b, s := ButtonEvents(ButtonOf(m.flags, m.wheelDelta)), WheelEvents(m.wheelDelta);
    AxisRead(absolute, REL_X, p.x, q.x, {}, REL_WHEEL);
    AxisRead(absolute, REL_Y, p.y, q.y, {}, REL_WHEEL);
    NotchesRead(ButtonOf(m.flags, m.wheelDelta), m.wheelDelta);
    TravelOfParts(x, y, b, s, REL_WHEEL);
  }

  lemma NotchesRead(b: ButtonChange, wheelDelta: int32)
    ensures Travel(ButtonEvents(b), REL_WHEEL) == 0
    ensures Travel(WheelEvents(wheelDelta), REL_WHEEL) == Notches(wheelDelta)
  {
    var es, s := ButtonEvents(b), WheelEvents(wheelDelta);
    if es != [] {
      assert es[..0] == [];
    }
    if s != [] {
      assert s[..0] == [];
    }
  }

  // For every pointer state and packet, the wheel is turned if and only if the
  // packet's wheel field is not zero, whatever message it carries, and then by
  // that many notches.
  lemma ScrollsIff(absolute: bool, p: PointerState, w: int, h: int, m: MousePacket)
    ensures (exists e :: e in MouseEvents(absolute, p, w, h, m) && TurnsWheel(e)) <==> m.wheelDelta != 0
    ensures Travel(MouseEvents(absolute, p, w, h, m), 8) == Notches(m.wheelDelta)
  {
    WheelTravel(absolute, p, w, h, m);
    if m.wheelDelta != 0 {
      var s := WheelEvents(m.wheelDelta);
      assert s[0] in MouseEvents(absolute, p, w, h, m) && TurnsWheel(s[0]);
    }
  }

  predicate IsXButton(m: MousePacket) {
    (m.flags == 0x20B || m.flags == 0x20C) && (m.wheelDelta % 0x1_0000 == 1 || m.wheelDelta % 0x1_0000 == 2)
  }

  // So every X-button message scrolls, because its button number travels in the
  // wheel field: a click of either button is two notches.
  lemma XButtonAlsoScrolls(absolute: bool, p: PointerState, w: int, h: int, m: MousePacket)
    requires IsXButton(m)
    ensures exists e :: e in MouseEvents(absolute, p, w, h, m) && TurnsWheel(e)
    ensures 0 < m.wheelDelta < 0x1_0000 ==> Travel(MouseEvents(absolute, p, w, h, m), 8) == 1
  {
    XNumber(m);
    ScrollsIff(absolute, p, w, h, m);
  }

  lemma XNumber(m: MousePacket)
    requires IsXButton(m)
    ensures m.wheelDelta != 0
    ensures 0 < m.wheelDelta < 0x1_0000 ==> Notches(m.wheelDelta) == 1
  {
  }

  lemma ClickScrollsTwice(absolute: bool, w: int, h: int, before: seq<MousePacket>, x: int32, y: int32, button: int32)
    requires button == 1 || button == 2
    ensures var click := [MousePacket(x, y, button, WM_XBUTTONDOWN), MousePacket(x, y, button, WM_XBUTTONUP)];
      Travel(PlayMouse(absolute, w, h, before + click).1, 8)
      == Travel(PlayMouse(absolute, w, h, before).1, 8) + 2
  {
    var down, up := MousePacket(x, y, button, WM_XBUTTONDOWN), MousePacket(x, y, button, WM_XBUTTONUP);
    assert before + [down, up] == (before + [down]) + [up];
    PacketTravel(absolute, w, h, before, down);
    PacketTravel(absolute, w, h, before + [down], up);
  }

  lemma PacketTravel(absolute: bool, w: int, h: int, before: seq<MousePacket>, m: MousePacket)
    ensures Travel(PlayMouse(absolute, w, h, before + [m]).1, 8)
      == Travel(PlayMouse(absolute, w, h, before).1, 8) + Notches(m.wheelDelta)
  {
    SnocParts(before, m);
    var (p, written) := PlayMouse(absolute, w, h, before);
    ScrollsIff(absolute, p, w, h, m);
    TravelAppend(written, MouseEvents(absolute, p, w, h, m), 8);
  }

  function AllNotches(packets: seq<MousePacket>): int {
    if packets == [] then 0
    else AllNotches(packets[..|packets| - 1]) + Notches(packets[|packets| - 1].wheelDelta)
  }

  // Over any packets the wheel turns by the notches of their wheel fields.
  lemma {:induction false} ScrollTotal(absolute: bool, w: int, h: int, packets: seq<MousePacket>)
    ensures Travel(PlayMouse(absolute, w, h, packets).1, 8) == AllNotches(packets)
    decreases |packets|
  {
    if packets == [] {
    } else {
      var front := packets[..|packets| - 1];
      ScrollTotal(absolute, w, h, front);
      PacketTravel(absolute, w, h, front, packets[|packets| - 1]);
      FrontLast(packets);
    }
  }
}
