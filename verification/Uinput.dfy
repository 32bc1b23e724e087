/** The virtual keyboard and mouse: what each injected packet writes to the
    devices. A device is the list of events written to it. */
module Uinput {
  import opened Bytes
  import opened Capture
  import opened Keyboard

  const EV_SYN: uint16 := 0
  const EV_ABS: uint16 := 3
  const SYN_REPORT: uint16 := 0
  const ABS_X: uint16 := 0
  const ABS_Y: uint16 := 1
  const REL_WHEEL: uint16 := 8
  const BTN_LEFT: uint16 := 0x110
  const BTN_RIGHT: uint16 := 0x111
  const BTN_MIDDLE: uint16 := 0x112
  const BTN_SIDE: uint16 := 0x113
  const BTN_EXTRA: uint16 := 0x114
  const WM_LBUTTONDOWN: int32 := 0x201
  const WM_LBUTTONUP: int32 := 0x202
  const WM_RBUTTONDOWN: int32 := 0x204
  const WM_RBUTTONUP: int32 := 0x205
  const WM_MBUTTONDOWN: int32 := 0x207
  const WM_MBUTTONUP: int32 := 0x208
  const WM_XBUTTONDOWN: int32 := 0x20B
  const WM_XBUTTONUP: int32 := 0x20C

  const SYN: InputEvent := InputEvent(EV_SYN, SYN_REPORT, 0)

  function KeyDown(code: uint16): InputEvent {
    InputEvent(EV_KEY, code, 1)
  }

  function KeyUp(code: uint16): InputEvent {
    InputEvent(EV_KEY, code, 0)
  }

  // Go's division truncates toward zero.
  function Quotient(a: int, b: int): int
    requires b > 0
  {
    if a >= 0 then a / b else -(-a / b)
  }

  // ---- Keyboard ------------------------------------------------------------

  // flags & LLKHF_UP, bit 7 of the two's complement pattern.
  predicate IsKeyUp(flags: int32) {
    ToUint32(flags) / 0x80 % 2 == 1
  }

  // InjectKeyboard: the tracked keys afterwards, and the events written.
  function Inject(vkToLinux: map<int32, uint16>, pressed: set<uint16>, vk: int32, flags: int32):
    (set<uint16>, seq<InputEvent>)
  {
    if vk !in vkToLinux then (pressed, [])
    else
      var code := vkToLinux[vk];
      if IsKeyUp(flags) then (pressed - {code}, [KeyUp(code), SYN])
      else if code in pressed then (pressed, [])
      else (pressed + {code}, [KeyDown(code), SYN])
  }

  // ReleaseAllKeys, with the tracked keys listed in the order they come.
  function ReleaseAll(order: seq<uint16>): seq<InputEvent> {
    KeyUps(order) + [SYN]
  }

  function KeyUps(order: seq<uint16>): (r: seq<InputEvent>)
    ensures |r| == |order|
    ensures forall i :: 0 <= i < |r| ==> r[i] == KeyUp(order[i])
  {
    seq(|order|, i requires 0 <= i < |order| => KeyUp(order[i]))
  }

  // ---- Mouse ---------------------------------------------------------------

  datatype ButtonState = ButtonState(left: bool, right: bool, middle: bool, side: bool, extra: bool)

  const NO_BUTTONS := ButtonState(false, false, false, false, false)

  datatype PointerState = PointerState(x: int, y: int, buttons: ButtonState)

  predicate Holds(b: ButtonState, code: uint16) {
    || (code == BTN_LEFT && b.left) || (code == BTN_RIGHT && b.right) || (code == BTN_MIDDLE && b.middle)
    || (code == BTN_SIDE && b.side) || (code == BTN_EXTRA && b.extra)
  }

  // A packet coordinate scaled to this screen.
  function Scale(v: int32, size: int): int {
    Quotient(v * size, 65536)
  }

  // ABS_X, ABS_Y and REL_X, REL_Y have the same codes.
  function AxisEvents(absolute: bool, axis: uint16, was: int, now: int): seq<InputEvent> {
    if absolute then [InputEvent(EV_ABS, axis, TruncateToInt32(now))]
    else if now != was then [InputEvent(EV_REL, axis, TruncateToInt32(now - was))]
    else []
  }

  /** The button a message is about; the X buttons share a message and are told
      apart by the low half of the wheel field. */
  datatype ButtonChange = NoButton | Change(code: uint16, down: bool)

  function ButtonOf(flags: int32, wheelDelta: int32): ButtonChange {
    var x := wheelDelta % 0x1_0000;
    if flags == WM_LBUTTONDOWN then Change(BTN_LEFT, true)
    else if flags == WM_LBUTTONUP then Change(BTN_LEFT, false)
    else if flags == WM_RBUTTONDOWN then Change(BTN_RIGHT, true)
    else if flags == WM_RBUTTONUP then Change(BTN_RIGHT, false)
    else if flags == WM_MBUTTONDOWN then Change(BTN_MIDDLE, true)
    else if flags == WM_MBUTTONUP then Change(BTN_MIDDLE, false)
    else if flags == WM_XBUTTONDOWN && x == 1 then Change(BTN_SIDE, true)
    else if flags == WM_XBUTTONUP && x == 1 then Change(BTN_SIDE, false)
    else if flags == WM_XBUTTONDOWN && x == 2 then Change(BTN_EXTRA, true)
    else if flags == WM_XBUTTONUP && x == 2 then Change(BTN_EXTRA, false)
    else NoButton
  }

  function ButtonEvents(b: ButtonChange): seq<InputEvent> {
    if b.NoButton? then [] else [InputEvent(EV_KEY, b.code, if b.down then 1 else 0)]
  }

  function Buttons(held: ButtonState, b: ButtonChange): ButtonState {
    if b.NoButton? then held
    else if b.code == BTN_LEFT then held.(left := b.down)
    else if b.code == BTN_RIGHT then held.(right := b.down)
    else if b.code == BTN_MIDDLE then held.(middle := b.down)
    else if b.code == BTN_SIDE then held.(side := b.down)
    else if b.code == BTN_EXTRA then held.(extra := b.down)
    else held
  }

  function WheelEvents(wheelDelta: int32): seq<InputEvent> {
    if wheelDelta == 0 then []
    else
      var notches := Quotient(wheelDelta, 120);
      [InputEvent(EV_REL, REL_WHEEL, if notches != 0 then notches else if wheelDelta < 0 then -1 else 1)]
  }

  /** One mouse packet. */
  datatype MousePacket = MousePacket(x: int32, y: int32, wheelDelta: int32, flags: int32)

  function Moved(p: PointerState, w: int, h: int, m: MousePacket): PointerState {
    PointerState(Scale(m.x, w), Scale(m.y, h), Buttons(p.buttons, ButtonOf(m.flags, m.wheelDelta)))
  }

  // A report is written if and only if anything else was.
  function MouseEvents(absolute: bool, p: PointerState, w: int, h: int, m: MousePacket): seq<InputEvent> {
    var q := Moved(p, w, h, m);
    var es := AxisEvents(absolute, REL_X, p.x, q.x) + AxisEvents(absolute, REL_Y, p.y, q.y)
      + ButtonEvents(ButtonOf(m.flags, m.wheelDelta)) + WheelEvents(m.wheelDelta);
    if es == [] then [] else es + [SYN]
  }

  /** The object, updated in place; what is written to a device is appended to it. */
  class VirtualInput {
    const vkToLinux: map<int32, uint16>
    const screenW: int
    const screenH: int
    const absAvailable: bool
    var absX: int
    var absY: int
    var btnLeft: bool
    var btnRight: bool
    var btnMiddle: bool
    var btnSide: bool
    var btnExtra: bool
    var pressedKeys: set<uint16>
    var kbdFile: seq<InputEvent>
    var mouseFile: seq<InputEvent>

    constructor (vkToLinux: map<int32, uint16>, screenW: int, screenH: int, absAvailable: bool)
      ensures this.vkToLinux == vkToLinux && this.absAvailable == absAvailable
      ensures this.screenW == screenW && this.screenH == screenH
      ensures pressedKeys == {} && At() == PointerState(0, 0, NO_BUTTONS) && kbdFile == [] && mouseFile == []
    {
      this.vkToLinux, this.screenW, this.screenH, this.absAvailable := vkToLinux, screenW, screenH, absAvailable;
      absX, absY, pressedKeys := 0, 0, {};
      btnLeft, btnRight, btnMiddle, btnSide, btnExtra := false, false, false, false, false;
      kbdFile, mouseFile := [], [];
    }

    ghost function At(): PointerState
      reads this
    {
      PointerState(absX, absY, ButtonState(btnLeft, btnRight, btnMiddle, btnSide, btnExtra))
    }

    method InjectKeyboard(vk: int32, flags: int32)
      modifies this`pressedKeys, this`kbdFile
      ensures var (pressed, written) := Inject(vkToLinux, old(pressedKeys), vk, flags);
        pressedKeys == pressed && kbdFile == old(kbdFile) + written
    {
      if vk !in vkToLinux {
        return;
      }
      var linuxCode := vkToLinux[vk];
      var isKeyUp := IsKeyUp(flags);
      if isKeyUp {
        pressedKeys := pressedKeys - {linuxCode};
      } else {
        if linuxCode in pressedKeys {
          return;
        }
        pressedKeys := pressedKeys + {linuxCode};
      }
      var value: int32 := 1;
      if isKeyUp {
        value := 0;
      }
      kbdFile := kbdFile + [InputEvent(EV_KEY, linuxCode, value)];
      kbdFile := kbdFile + [SYN];
    }

    // Returns, for the proof, the order in which the keys were released.
    method ReleaseAllKeys() returns (ghost order: seq<uint16>)
      modifies this`pressedKeys, this`kbdFile
      ensures pressedKeys == {} && Enumerates(order, old(pressedKeys))
      ensures kbdFile == old(kbdFile) + ReleaseAll(order)
    {
      order := [];
      while pressedKeys != {}
        invariant pressedKeys <= old(pressedKeys)
        invariant Enumerates(order, old(pressedKeys) - pressedKeys)
        invariant kbdFile == old(kbdFile) + KeyUps(order)
        decreases pressedKeys
      {
        var linuxCode :| linuxCode in pressedKeys;
        kbdFile := kbdFile + [KeyUp(linuxCode)];
        pressedKeys := pressedKeys - {linuxCode};
        assert KeyUps(order + [linuxCode]) == KeyUps(order) + [KeyUp(linuxCode)];
        order := order + [linuxCode];
      }
      kbdFile := kbdFile + [SYN];
      assert old(pressedKeys) - pressedKeys == old(pressedKeys);
    }

    method InjectMouse(x: int32, y: int32, wheelDelta: int32, flags: int32)
      modifies this`absX, this`absY, this`btnLeft, this`btnRight, this`btnMiddle, this`btnSide, this`btnExtra, this`mouseFile
      ensures var m := MousePacket(x, y, wheelDelta, flags);
        && At() == Moved(old(At()), screenW, screenH, m)
        && mouseFile == old(mouseFile) + MouseEvents(absAvailable, old(At()), screenW, screenH, m)
    {
      var newX := Scale(x, screenW);
      var newY := Scale(y, screenH);
      ghost var axes := AxisEvents(absAvailable, REL_X, absX, newX) + AxisEvents(absAvailable, REL_Y, absY, newY);
      var moved := MoveTo(newX, newY);
      absX, absY := newX, newY;
      var changed := UpdateButtons(flags, wheelDelta);
      TurnWheel(wheelDelta);
      JoinThree(old(mouseFile), axes, ButtonEvents(ButtonOf(flags, wheelDelta)), WheelEvents(wheelDelta));
      ghost var es := axes + ButtonEvents(ButtonOf(flags, wheelDelta)) + WheelEvents(wheelDelta);
      assert es == [] <==> !(changed || wheelDelta != 0 || moved);
      Associative(old(mouseFile), es, [SYN]);
      if changed || wheelDelta != 0 || moved {
        mouseFile := mouseFile + [SYN];
      }
    }

    method TurnWheel(wheelDelta: int32)
      modifies this`mouseFile
      ensures mouseFile == old(mouseFile) + WheelEvents(wheelDelta)
    {
      if wheelDelta != 0 {
        var linuxWheel: int32 := Quotient(wheelDelta, 120);
        if linuxWheel == 0 {
          linuxWheel := 1;
          if wheelDelta < 0 {
            linuxWheel := -1;
          }
        }
        mouseFile := mouseFile + [InputEvent(EV_REL, REL_WHEEL, linuxWheel)];
      }
    }

    method MoveTo(newX: int, newY: int) returns (moved: bool)
      modifies this`mouseFile
      ensures var es := AxisEvents(absAvailable, REL_X, absX, newX) + AxisEvents(absAvailable, REL_Y, absY, newY);
        mouseFile == old(mouseFile) + es && moved == (es != [])
    {
      moved := false;
      if absAvailable {
        mouseFile := mouseFile + [InputEvent(EV_ABS, ABS_X, TruncateToInt32(newX))];
        mouseFile := mouseFile + [InputEvent(EV_ABS, ABS_Y, TruncateToInt32(newY))];
        moved := true;
      } else {
        var deltaX := newX - absX;
        var deltaY := newY - absY;
        if deltaX != 0 {
          mouseFile := mouseFile + [InputEvent(EV_REL, REL_X, TruncateToInt32(deltaX))];
          moved := true;
        }
        if deltaY != 0 {
          mouseFile := mouseFile + [InputEvent(EV_REL, REL_Y, TruncateToInt32(deltaY))];
          moved := true;
        }
      }
    }

    // Five independent button blocks, yet at most one acts on any message.
    method UpdateButtons(flags: int32, wheelDelta: int32) returns (changed: bool)
      modifies this`btnLeft, this`btnRight, this`btnMiddle, this`btnSide, this`btnExtra, this`mouseFile
      ensures var b := ButtonOf(flags, wheelDelta);
        && At() == PointerState(absX, absY, Buttons(old(At()).buttons, b))
        && mouseFile == old(mouseFile) + ButtonEvents(b)
        && changed == b.Change?
    {
      var xButtonNum := wheelDelta % 0x1_0000;
      changed := false;
      if flags == WM_LBUTTONDOWN {
        btnLeft := true;
        mouseFile := mouseFile + [KeyDown(BTN_LEFT)];
        changed := true;
      } else if flags == WM_LBUTTONUP {
        btnLeft := false;
        mouseFile := mouseFile + [KeyUp(BTN_LEFT)];
        changed := true;
      }
      if flags == WM_RBUTTONDOWN {
        btnRight := true;
        mouseFile := mouseFile + [KeyDown(BTN_RIGHT)];
        changed := true;
      } else if flags == WM_RBUTTONUP {
        btnRight := false;
        mouseFile := mouseFile + [KeyUp(BTN_RIGHT)];
        changed := true;
      }
      if flags == WM_MBUTTONDOWN {
        btnMiddle := true;
        mouseFile := mouseFile + [KeyDown(BTN_MIDDLE)];
        changed := true;
      } else if flags == WM_MBUTTONUP {
        btnMiddle := false;
        mouseFile := mouseFile + [KeyUp(BTN_MIDDLE)];
        changed := true;
      }
      if flags == WM_XBUTTONDOWN && xButtonNum == 1 {
        btnSide := true;
        mouseFile := mouseFile + [KeyDown(BTN_SIDE)];
        changed := true;
      } else if flags == WM_XBUTTONUP && xButtonNum == 1 {
        btnSide := false;
        mouseFile := mouseFile + [KeyUp(BTN_SIDE)];
        changed := true;
      }
      if flags == WM_XBUTTONDOWN && xButtonNum == 2 {
        btnExtra := true;
        mouseFile := mouseFile + [KeyDown(BTN_EXTRA)];
        changed := true;
      } else if flags == WM_XBUTTONUP && xButtonNum == 2 {
        btnExtra := false;
        mouseFile := mouseFile + [KeyUp(BTN_EXTRA)];
        changed := true;
      }
    }
  }

  lemma JoinThree<T>(a: seq<T>, x: seq<T>, y: seq<T>, z: seq<T>)
    ensures ((a + x) + y) + z == a + ((x + y) + z)
  {
  }
}
