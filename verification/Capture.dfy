/** The input capture state, and what each of its lock sections does to it. */
module Capture {
  import opened Wrappers
  import opened Bytes
  import opened Detector

  const EV_KEY: uint16 := 1
  const EV_REL: uint16 := 2
  const REL_X: uint16 := 0
  const REL_Y: uint16 := 1
  const BTN_MOUSE: uint16 := 0x110

  datatype InputEvent = InputEvent(typ: uint16, code: uint16, value: int32)

  // absInt: int(-v), where -v wraps for the least int32.
  function AbsInt(v: int32): int {
    if v < 0 && v != MIN_INT32 then -v else v
  }

  predicate IsMouseButtonCode(code: uint16) {
    BTN_MOUSE <= code <= BTN_MOUSE + 0x0F
  }

  predicate IsMouseButtonPress(ev: InputEvent) {
    ev.typ == EV_KEY && ev.value == 1 && IsMouseButtonCode(ev.code)
  }

  predicate IsIntentional(ev: InputEvent) {
    if ev.typ == EV_REL then (ev.code == REL_X || ev.code == REL_Y) && ev.value != 0
    else IsMouseButtonPress(ev)
  }

  datatype Action = NoAction | Activate | Rebind

  // remoteMouseActivationAction
  function ActionFor<D(==)>(active: Option<D>, source: D, ev: InputEvent): Action {
    if !IsIntentional(ev) then NoAction
    else if active.None? then Activate
    else if active != Some(source) then Rebind
    else NoAction
  }

  // What the detector makes of an event.
  function Observe<D(==)>(active: Option<D>, source: D, ev: InputEvent, now: int): Obs<D> {
    if ActionFor(active, source, ev).NoAction? then Quiet(now)
    else if IsMouseButtonPress(ev) then Press
    else Motion(source, AbsInt(ev.value), now)
  }

  // Whether decideMouseActivationLocked returns the action instead of none.
  predicate Granted<D(==)>(p: Pending<D>, o: Obs<D>) {
    o.Press? || FiresNow(p, o)
  }

  /** The open devices: which keyboard handles share a path with a mouse, and
      which mice are the same physical device as a keyboard handle, in order. */
  datatype Devices<!D> = Devices(mice: set<D>, kbds: set<D>, combo: set<D>, matches: D -> seq<D>)

  /** The fields guarded by the mutex, with the Grabbed flags as sets. */
  datatype State<D> = State(
    remote: bool,
    active: Option<D>,
    activeKbd: Option<D>,
    pending: Pending<D>,
    mice: set<D>,      // grabbed mouse handles
    kbds: set<D>,      // grabbed keyboard handles
    pressed: set<uint16>)

  function Boot<D>(): State<D> {
    State(false, None, None, Idle, {}, {}, {})
  }

  // Grab; works says which of the ioctls succeed.
  function Grab<D(==)>(devs: Devices<D>, s: State<D>, mouse: Option<D>, works: set<D>): State<D> {
    var s1 :=
      if mouse.None? then s.(pending := Idle)
      else if mouse.value !in s.mice && mouse.value in works then
        s.(mice := s.mice + {mouse.value}, active := mouse)
      else s;
    s1.(kbds := s1.kbds + (devs.kbds * works - devs.combo), remote := true, pressed := {})
  }

  function Ungrab<D>(s: State<D>): State<D> {
    State(false, None, None, Idle, {}, {}, s.pressed)
  }

  // grabMouseLocked
  function Select<D(==)>(s: State<D>, mouse: D, works: bool): State<D> {
    s.(active := Some(mouse), mice := if works then s.mice + {mouse} else s.mice)
  }

  // ungrabMouseLocked
  function Release<D(==)>(s: State<D>, mouse: Option<D>): State<D> {
    if mouse.None? then s else s.(mice := s.mice - {mouse.value})
  }

  // The section both mouse paths share: decide, then activate or rebind.
  function Consider<D(==)>(s: State<D>, source: D, ev: InputEvent, now: int, works: bool): State<D> {
    var o := Observe(s.active, source, ev, now);
    var s1 := s.(pending := After(s.pending, o));
    if !Granted(s.pending, o) then s1
    else if s.active.None? then Select(s1, source, works)
    else Select(Release(s1, s1.active), source, works)
  }

  // mouseSourceForKeyboardButtonLocked
  function SourceFor<D(==)>(devs: Devices<D>, active: Option<D>, kbd: D): Option<D> {
    var matches := devs.matches(kbd);
    if kbd in devs.combo || matches == [] then None
    else if active.Some? && active.value in matches then active
    else Some(matches[0])
  }

  /** One critical section of the mutex. */
  datatype Section<D> =
    | MouseEvent(mouse: D, ev: InputEvent, now: int, works: bool)
    | KeyboardButton(kbd: D, ev: InputEvent, now: int, works: bool)
    | Track(code: uint16, pressed: bool)
    | ChooseKeyboard(kbd: D)
    | GrabAll(worksFor: set<D>)   // Grab(nil), the only call there is
    | UngrabAll

  function Exec<D(==)>(devs: Devices<D>, s: State<D>, c: Section<D>): State<D> {
    match c
    case MouseEvent(m, ev, now, works) => if s.remote then Consider(s, m, ev, now, works) else s
    case KeyboardButton(k, ev, now, works) =>
      var source := SourceFor(devs, s.active, k);
      if s.remote && source.Some? then Consider(s, source.value, ev, now, works) else s
    case Track(code, pressed) => s.(pressed := if pressed then s.pressed + {code} else s.pressed - {code})
    case ChooseKeyboard(k) => s.(activeKbd := Some(k))
    case GrabAll(works) => Grab(devs, s, None, works)
    case UngrabAll => Ungrab(s)
  }

  // Every interleaving of the sections of all goroutines is one such sequence;
  // KeyLoop has only those that the keyboard loops can make.
  function Run<D(==)>(devs: Devices<D>, cs: seq<Section<D>>): State<D> {
    if cs == [] then Boot() else Exec(devs, Run(devs, cs[..|cs| - 1]), cs[|cs| - 1])
  }
}

module CaptureProofs {
  import opened Wrappers
  import opened Bytes
  import opened Detector
  import opened Capture

  ghost predicate Sensible<D>(devs: Devices<D>) {
    && devs.combo <= devs.kbds
    && forall k: D, i :: k in devs.kbds && 0 <= i < |devs.matches(k)| ==> devs.matches(k)[i] in devs.mice
  }

  // Sections come from goroutines of the open devices.
  predicate Legal<D>(devs: Devices<D>, c: Section<D>) {
    (c.MouseEvent? ==> c.mouse in devs.mice) && (c.KeyboardButton? ==> c.kbd in devs.kbds)
  }

  ghost predicate AllLegal<D>(devs: Devices<D>, cs: seq<Section<D>>) {
    forall i :: 0 <= i < |cs| ==> Legal(devs, cs[i])
  }

  // ---- Grabs ---------------------------------------------------------------

  ghost predicate GrabInv<D>(devs: Devices<D>, s: State<D>) {
    && (forall m :: m in s.mice ==> s.active == Some(m))
    && (s.active.Some? ==> s.active.value in devs.mice)
    && s.kbds <= devs.kbds - devs.combo
    && (!s.remote ==> s.mice == {} && s.kbds == {} && s.active == None && s.pending == Idle)
  }

  lemma ConsiderKeeps<D>(devs: Devices<D>, s: State<D>, source: D, ev: InputEvent, now: int, works: bool)
    requires GrabInv(devs, s) && s.remote && source in devs.mice
    ensures GrabInv(devs, Consider(s, source, ev, now, works))
  {
  }

  lemma SourceIsMouse<D>(devs: Devices<D>, active: Option<D>, kbd: D)
    requires Sensible(devs) && kbd in devs.kbds
    ensures SourceFor(devs, active, kbd).Some? ==> SourceFor(devs, active, kbd).value in devs.mice
  {
    var matches := devs.matches(kbd);
    assert matches != [] ==> matches[0] in devs.mice;
  }

  lemma ExecKeeps<D>(devs: Devices<D>, s: State<D>, c: Section<D>)
    requires Sensible(devs) && GrabInv(devs, s) && Legal(devs, c)
    ensures GrabInv(devs, Exec(devs, s, c))
  {
    match c
    case MouseEvent(m, ev, now, works) =>
      if s.remote {
        ConsiderKeeps(devs, s, m, ev, now, works);
      }
    case KeyboardButton(k, ev, now, works) =>
      SourceIsMouse(devs, s.active, k);
      var source := SourceFor(devs, s.active, k);
      if s.remote && source.Some? {
        ConsiderKeeps(devs, s, source.value, ev, now, works);
      }
    case _ =>
  }

  // In every interleaving: a grabbed mouse is the active one, so at most one is
  // grabbed; in local mode nothing is grabbed and there is no active mouse; a
  // keyboard handle that shares a mouse's path is never grabbed.
  lemma {:induction false} GrabsAlwaysSound<D>(devs: Devices<D>, cs: seq<Section<D>>)
    requires Sensible(devs) && AllLegal(devs, cs)
    ensures var s := Run(devs, cs);
      && GrabInv(devs, s)
      && |s.mice| <= 1
      && s.kbds !! devs.combo
  {
    if cs != [] {
      GrabsAlwaysSound(devs, cs[..|cs| - 1]);
      ExecKeeps(devs, Run(devs, cs[..|cs| - 1]), cs[|cs| - 1]);
    }
    var s := Run(devs, cs);
    if s.mice != {} {
      var m :| m in s.mice;
      assert s.mice == {m};
    }
  }

  // Grab with a mouse, which nothing calls: it keeps the invariant exactly when
  // it does not grab a second mouse.
  lemma GrabMouseIff<D>(devs: Devices<D>, s: State<D>, mouse: D, works: set<D>)
    requires GrabInv(devs, s) && mouse in devs.mice
    ensures GrabInv(devs, Grab(devs, s, Some(mouse), works))
      <==> s.mice == {} || mouse in s.mice || mouse !in works
  {
    var s' := Grab(devs, s, Some(mouse), works);
    if mouse !in s.mice && mouse in works && s.mice != {} {
      var other :| other in s.mice;
      assert other in s'.mice && s'.active == Some(mouse);
    }
  }

  // ---- Intent --------------------------------------------------------------

  // What a section shows the detector, if anything.
  function Shown<D(==)>(devs: Devices<D>, s: State<D>, c: Section<D>): seq<Obs<D>> {
    match c
    case MouseEvent(m, ev, now, _) => if s.remote then [Observe(s.active, m, ev, now)] else []
    case KeyboardButton(k, ev, now, _) =>
      var source := SourceFor(devs, s.active, k);
      if s.remote && source.Some? then [Observe(s.active, source.value, ev, now)] else []
    case GrabAll(_) => [Clear]
    case UngrabAll => [Clear]
    case _ => []
  }

  function History<D(==)>(devs: Devices<D>, cs: seq<Section<D>>): seq<Obs<D>> {
    if cs == [] then []
    else
      var front := cs[..|cs| - 1];
      History(devs, front) + Shown(devs, Run(devs, front), cs[|cs| - 1])
  }

  // One section moves the pending fields by what it shows the detector.
  lemma ExecPending<D>(devs: Devices<D>, s: State<D>, c: Section<D>)
    ensures var shown := Shown(devs, s, c);
      && |shown| <= 1
      && Exec(devs, s, c).pending == if shown == [] then s.pending else After(s.pending, shown[0])
  {
  }

  lemma ReplayAppend<D>(h: seq<Obs<D>>, shown: seq<Obs<D>>)
    requires |shown| <= 1
    ensures Replay(h + shown) == if shown == [] then Replay(h) else After(Replay(h), shown[0])
  {
    if shown == [] {
      assert h + shown == h;
    } else {
      assert (h + shown)[..|h|] == h;
    }
  }

  lemma {:induction false} PendingIsReplay<D>(devs: Devices<D>, cs: seq<Section<D>>)
    ensures Run(devs, cs).pending == Replay(History(devs, cs))
  {
    if cs == [] {
    } else {
      var front, c := cs[..|cs| - 1], cs[|cs| - 1];
      PendingIsReplay(devs, front);
      ExecPending(devs, Run(devs, front), c);
      ReplayAppend(History(devs, front), Shown(devs, Run(devs, front), c));
    }
  }

  // After any interleaving, a motion in remote mode from a mouse that is not
  // active makes it the active one if and only if the history ends an intended
  // movement of it; a button press always does; anything else changes nothing.
  lemma ActivationIff<D>(devs: Devices<D>, cs: seq<Section<D>>, mouse: D, ev: InputEvent, now: int, works: bool)
    requires Run(devs, cs).remote
    ensures var s := Run(devs, cs);
      var o := Observe(s.active, mouse, ev, now);
      var s' := Exec(devs, s, MouseEvent(mouse, ev, now, works));
      && (o.Motion? ==> s.active != Some(mouse) && (s'.active == Some(mouse) <==> Fires(History(devs, cs) + [o])))
      && (o.Press? ==> s.active != Some(mouse) && s'.active == Some(mouse))
      && (s'.active == s.active || s'.active == Some(mouse))
      && (o.Quiet? ==> s'.active == s.active)
  {
    var s := Run(devs, cs);
    PendingIsReplay(devs, cs);
    FiresIff(History(devs, cs), Observe(s.active, mouse, ev, now));
  }

  // A button press on a keyboard-like handle that belongs to a mouse is always
  // forwarded in remote mode: its mouse is the active one afterwards.
  lemma ComboPressForwarded<D>(devs: Devices<D>, s: State<D>, kbd: D, ev: InputEvent, now: int, works: bool)
    requires s.remote && SourceFor(devs, s.active, kbd).Some?
    requires ev.typ == 1 && ev.value == 1 && 0x110 <= ev.code <= 0x11F
    ensures var s' := Exec(devs, s, KeyboardButton(kbd, ev, now, works));
      s'.active == SourceFor(devs, s.active, kbd) == SourceFor(devs, s'.active, kbd)
  {
  }

  // The motions in a history come from events, so they are positive unless some
  // event carried the least int32; then four of one run are always enough.
  ghost predicate NoLeastInt<D>(cs: seq<Section<D>>) {
    forall i :: 0 <= i < |cs| && (cs[i].MouseEvent? || cs[i].KeyboardButton?) ==> cs[i].ev.value != MIN_INT32
  }

  lemma ShownPositive<D>(devs: Devices<D>, s: State<D>, c: Section<D>)
    requires c.MouseEvent? || c.KeyboardButton? ==> c.ev.value != MIN_INT32
    ensures Positive(Shown(devs, s, c))
  {
  }

  lemma {:induction false} HistoryPositive<D>(devs: Devices<D>, cs: seq<Section<D>>)
    requires NoLeastInt(cs)
    ensures Positive(History(devs, cs))
  {
    if cs == [] {
    } else {
      var front := cs[..|cs| - 1];
      HistoryPositive(devs, front);
      ShownPositive(devs, Run(devs, front), cs[|cs| - 1]);
    }
  }

  lemma PendingStaysSmall<D>(devs: Devices<D>, cs: seq<Section<D>>, i: nat)
    requires NoLeastInt(cs)
    ensures var p := Run(devs, cs).pending;
      p.Candidate? ==> 1 <= p.hits <= 3 && (p.hits >= 2 ==> p.motion <= 3)
    ensures var h := History(devs, cs);
      Unbroken(h, i) && Hits(h, i) >= 4 ==> Fires(h)
  {
    var h := History(devs, cs);
    HistoryPositive(devs, cs);
    PendingIsReplay(devs, cs);
    PendingBound(h);
    if Unbroken(h, i) && Hits(h, i) >= 4 {
      FourMotionsFire(h, i);
    }
  }

  // ---- The least int32 -----------------------------------------------------

  // Remote mode is entered, and the mouse reports one movement and then n single
  // steps.
  function Stepping<D>(mouse: D, first: int32, now: int, n: nat): seq<Section<D>> {
    if n == 0 then [GrabAll({}), MouseEvent(mouse, InputEvent(EV_REL, REL_X, first), now, true)]
    else Stepping(mouse, first, now, n - 1) + [MouseEvent(mouse, InputEvent(EV_REL, REL_X, 1), now, true)]
  }

  // Go's negation of the least int32 is itself: after such a movement the mouse
  // is not activated by any of the next two thousand million and more steps, and
  // is by the first one that brings the total to four.
  lemma {:induction false} LeastIntStarves<D>(devs: Devices<D>, mouse: D, now: int, n: nat)
    requires n <= 4 - MIN_INT32
    ensures var s := Run(devs, Stepping(mouse, MIN_INT32, now, n));
      && s.remote
      && (s.active == Some(mouse) <==> MIN_INT32 + n >= MIN_MOTION)
      && (s.active == None <==> MIN_INT32 + n < MIN_MOTION)
      && (s.active == None ==> s.pending == Candidate(mouse, n + 1, MIN_INT32 + n, now + WINDOW))
  {
    var cs := Stepping(mouse, MIN_INT32, now, n);
    if n == 0 {
      assert cs[..1] == [GrabAll({})] && cs[..1][..0] == [];
      assert Run(devs, cs[..1]) == Grab(devs, Boot(), None, {});
    } else {
      LeastIntStarves(devs, mouse, now, n - 1);
      assert cs[..|cs| - 1] == Stepping(mouse, MIN_INT32, now, n - 1);
    }
  }

  // Any other first movement, four steps later, has activated it.
  lemma OtherMovesActivate<D>(devs: Devices<D>, mouse: D, first: int32, now: int)
    requires first != 0 && first != MIN_INT32
    ensures exists n: nat :: n <= 3 && Run(devs, Stepping(mouse, first, now, n)).active == Some(mouse)
  {
    var c0, c1, c2, c3 := Stepping(mouse, first, now, 0), Stepping(mouse, first, now, 1),
      Stepping(mouse, first, now, 2), Stepping(mouse, first, now, 3);
    assert c0[..1] == [GrabAll({})] && c0[..1][..0] == [];
    assert Run(devs, c0[..1]) == Grab(devs, Boot(), None, {});
    assert c1[..|c1| - 1] == c0 && c2[..|c2| - 1] == c1 && c3[..|c3| - 1] == c2;
    var a := AbsInt(first);
    assert Run(devs, c0).pending == Candidate(mouse, 1, a, now + WINDOW) && Run(devs, c0).remote;
    if a >= 3 {
      assert Run(devs, c1).active == Some(mouse);
    } else {
      assert Run(devs, c1).pending == Candidate(mouse, 2, a + 1, now + WINDOW) && Run(devs, c1).remote;
      if a == 2 {
        assert Run(devs, c2).active == Some(mouse);
      } else {
        assert Run(devs, c2).pending == Candidate(mouse, 3, 3, now + WINDOW) && Run(devs, c2).remote;
        assert Run(devs, c3).active == Some(mouse);
      }
    }
  }
}
