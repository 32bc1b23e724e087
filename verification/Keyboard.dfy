/** What the keyboards make the capture forward, one whole event per step, and
    the shape of everything forwarded between entering and leaving remote mode. */
module Keyboard {
  import opened Wrappers
  import opened Bytes
  import opened Capture

  const F1: uint16 := 59
  const F2: uint16 := 60
  const LEFT_WIN: uint16 := 125
  const RIGHT_WIN: uint16 := 126

  // One call of OnKeyEvent.
  datatype Forward = Forward(code: uint16, down: bool)

  /** One event, handled to the end before the next one is. */
  datatype Event<D> =
    | Key(kbd: D, code: uint16, down: bool,
          order: seq<uint16>,  // how ranging over the tracked keys happens to list them, if it comes to that
          works: set<D>)       // which grabs succeed, if it comes to that
    | Pointer(section: Section<D>)
    | Return               // Ungrab by the other machine's request

  ghost predicate Enumerates(order: seq<uint16>, codes: set<uint16>) {
    && (forall c :: c in order <==> c in codes)
    && forall i, j :: 0 <= i < j < |order| ==> order[i] != order[j]
  }

  predicate Shortcut(pressed: set<uint16>, code: uint16, down: bool) {
    (code == F1 || code == F2) && down && (LEFT_WIN in pressed || RIGHT_WIN in pressed)
  }

  function Tracked(pressed: set<uint16>, code: uint16, down: bool): set<uint16> {
    if down then pressed + {code} else pressed - {code}
  }

  function Releases(order: seq<uint16>): (r: seq<Forward>)
    ensures |r| == |order|
    ensures forall i :: 0 <= i < |r| ==> r[i] == Forward(order[i], false)
  {
    seq(|order|, i requires 0 <= i < |order| => Forward(order[i], false))
  }

  // The body of the keyboard loop for a key that is not a mouse button.
  function OnKey<D(==)>(devs: Devices<D>, s: State<D>, kbd: D, code: uint16, down: bool, order: seq<uint16>,
        works: set<D>):
    (State<D>, seq<Forward>)
  {
    var s1 := Exec(devs, s, Track(code, down));
    if Shortcut(s1.pressed, code, down) then
      if s.remote then (Exec(devs, s1, UngrabAll), [])
      else (Exec(devs, s1, GrabAll(works)), Releases(order))
    else if !s.remote then (s1, [])
    else
      var s2 := if s1.activeKbd.None? && down then Exec(devs, s1, ChooseKeyboard(kbd)) else s1;
      (s2, if s2.activeKbd == Some(kbd) then [Forward(code, down)] else [])
  }

  function Handle<D(==)>(devs: Devices<D>, s: State<D>, e: Event<D>): (State<D>, seq<Forward>) {
    match e
    case Key(k, c, d, order, works) => OnKey(devs, s, k, c, d, order, works)
    case Pointer(section) => (Exec(devs, s, section), [])
    case Return => (Ungrab(s), [])
  }

  // The state after some events, and what they had forwarded.
  function After<D(==)>(devs: Devices<D>, s: State<D>, es: seq<Event<D>>): (State<D>, seq<Forward>) {
    if es == [] then (s, [])
    else
      var (s1, out) := After(devs, s, es[..|es| - 1]);
      var (s2, more) := Handle(devs, s1, es[|es| - 1]);
      (s2, out + more)
  }

  // Pointer steps are the two sections of the pointer loops.
  predicate ProperEvent<D>(e: Event<D>) {
    e.Pointer? ==> e.section.MouseEvent? || e.section.KeyboardButton?
  }

  ghost predicate Proper<D>(es: seq<Event<D>>) {
    forall i :: 0 <= i < |es| ==> ProperEvent(es[i])
  }
}

module KeyboardProofs {
  import opened Wrappers
  import opened Bytes
  import opened Capture
  import opened Keyboard

  // With whole events as steps there is no active keyboard in local mode.
  lemma {:induction false} LocalHasNoKeyboard<D>(devs: Devices<D>, es: seq<Event<D>>)
    requires Proper(es)
    ensures var s := After(devs, Boot(), es).0;
      !s.remote ==> s.activeKbd == None
  {
    if es == [] {
    } else {
      LocalHasNoKeyboard(devs, es[..|es| - 1]);
    }
  }

  // ---- What a session forwards, read off its events alone -------------------

  // The position of the first key press, or the length.
  function FirstPress<D>(es: seq<Event<D>>): (n: nat)
    ensures n <= |es|
    ensures n < |es| ==> es[n].Key? && es[n].down
    ensures forall i :: 0 <= i < n ==> es[i].Key? ==> !es[i].down
  {
    if es == [] then 0
    else if es[0].Key? && es[0].down then 0
    else 1 + FirstPress(es[1..])
  }

  // The key events of one keyboard.
  function EventsOf<D(==)>(es: seq<Event<D>>, kbd: D): seq<Forward> {
    if es == [] then []
    else
      var e := es[|es| - 1];
      EventsOf(es[..|es| - 1], kbd) + if e.Key? && e.kbd == kbd then [Forward(e.code, e.down)] else []
  }

  // From position n on, the events of the keyboard that sent the one there.
  function TypedFrom<D(==)>(es: seq<Event<D>>, n: nat): seq<Forward>
    requires n < |es| ==> es[n].Key?
  {
    if n >= |es| then [] else EventsOf(es[n..], es[n].kbd)
  }

  // Everything from the first press on, of the keyboard that was pressed.
  function Typed<D(==)>(es: seq<Event<D>>): seq<Forward> {
    TypedFrom(es, FirstPress(es))
  }

  // The last event of the key was a press.
  predicate Held<D>(es: seq<Event<D>>, code: uint16) {
    es != [] &&
    var e := es[|es| - 1];
    if e.Key? && e.code == code then e.down else Held(es[..|es| - 1], code)
  }

  lemma FirstPressUnique<D>(es: seq<Event<D>>, n: nat)
    requires n <= |es|
    requires n < |es| ==> es[n].Key? && es[n].down
    requires forall i :: 0 <= i < n ==> es[i].Key? ==> !es[i].down
    ensures FirstPress(es) == n
  {
    var m := FirstPress(es);
    assert !(m < n) && !(n < m);
  }

  lemma FirstPressSnoc<D>(es: seq<Event<D>>, e: Event<D>)
    ensures var n := FirstPress(es);
      FirstPress(es + [e]) == if n < |es| then n else if e.Key? && e.down then |es| else |es| + 1
  {
    var n := FirstPress(es);
    FirstPressUnique(es + [e], if n < |es| then n else if e.Key? && e.down then |es| else |es| + 1);
  }

  lemma EventsOfSnoc<D>(es: seq<Event<D>>, e: Event<D>, kbd: D)
    ensures EventsOf(es + [e], kbd) == EventsOf(es, kbd) + if e.Key? && e.kbd == kbd then [Forward(e.code, e.down)] else []
  {
    assert (es + [e])[..|es|] == es;
  }

  lemma DropSnoc<T>(s: seq<T>, e: T, n: nat)
    requires n <= |s|
    ensures (s + [e])[n..] == s[n..] + [e]
  {
  }

  lemma TypedFromSnoc<D>(es: seq<Event<D>>, e: Event<D>, n: nat)
    requires n < |es| && es[n].Key?
    ensures (es + [e])[n] == es[n]
    ensures TypedFrom(es + [e], n) ==
      TypedFrom(es, n) + if e.Key? && e.kbd == es[n].kbd then [Forward(e.code, e.down)] else []
  {
    DropSnoc(es, e, n);
    EventsOfSnoc(es[n..], e, es[n].kbd);
  }

  lemma TypedFromLast<D>(es: seq<Event<D>>, e: Event<D>)
    requires e.Key?
    ensures (es + [e])[|es|] == e
    ensures TypedFrom(es + [e], |es|) == [Forward(e.code, e.down)]
  {
    DropSnoc(es, e, |es|);
    assert es[|es|..] + [e] == [] + [e];
    EventsOfSnoc([], e, e.kbd);
  }

  lemma TypedSnoc<D>(es: seq<Event<D>>, e: Event<D>)
    ensures Typed(es + [e]) == Typed(es) +
      if FirstPress(es) < |es| then (if e.Key? && e.kbd == es[FirstPress(es)].kbd then [Forward(e.code, e.down)] else [])
      else if e.Key? && e.down then [Forward(e.code, e.down)] else []
  {
    FirstPressSnoc(es, e);
    var n := FirstPress(es);
    if n < |es| {
      TypedFromSnoc(es, e, n);
    } else if e.Key? && e.down {
      TypedFromLast(es, e);
    }
  }

  // ---- The session ---------------------------------------------------------

  // Entering: the shortcut in local mode.
  predicate Enters<D>(s: State<D>, e: Event<D>) {
    !s.remote && e.Key? && Shortcut(Tracked(s.pressed, e.code, e.down), e.code, e.down)
  }

  // Remote mode is never left while these events are handled.
  ghost predicate StaysRemote<D>(devs: Devices<D>, s: State<D>, es: seq<Event<D>>) {
    forall i :: 0 <= i <= |es| ==> After(devs, s, es[..i]).0.remote
  }

  ghost predicate InSession<D>(s: State<D>, out: seq<Forward>, es: seq<Event<D>>) {
    && s.remote
    && s.activeKbd == (var n := FirstPress(es); if n == |es| then None else Some(es[n].kbd))
    && (forall c :: c in s.pressed <==> Held(es, c))
    && out == Typed(es)
  }

  // One event within a session.
  lemma SessionStep<D>(devs: Devices<D>, s: State<D>, e: Event<D>)
    requires s.remote && Handle(devs, s, e).0.remote
    requires ProperEvent(e)
    ensures var (s', more) := Handle(devs, s, e);
      && s'.pressed == (if e.Key? then Tracked(s.pressed, e.code, e.down) else s.pressed)
      && s'.activeKbd == (if e.Key? && e.down && s.activeKbd.None? then Some(e.kbd) else s.activeKbd)
      && more == if e.Key? && s'.activeKbd == Some(e.kbd) then [Forward(e.code, e.down)] else []
  {
  }

  lemma HeldSnoc<D>(es: seq<Event<D>>, e: Event<D>, c: uint16)
    ensures Held(es + [e], c) == if e.Key? && e.code == c then e.down else Held(es, c)
  {
    assert (es + [e])[..|es|] == es;
  }

  lemma InSessionStep<D>(devs: Devices<D>, s: State<D>, out: seq<Forward>, es: seq<Event<D>>, e: Event<D>)
    requires InSession(s, out, es) && Handle(devs, s, e).0.remote
    requires ProperEvent(e)
    ensures InSession(Handle(devs, s, e).0, out + Handle(devs, s, e).1, es + [e])
  {
    SessionStep(devs, s, e);
    FirstPressSnoc(es, e);
    TypedSnoc(es, e);
    var s' := Handle(devs, s, e).0;
    forall c
      ensures c in s'.pressed <==> Held(es + [e], c)
    {
      HeldSnoc(es, e, c);
    }
  }

  lemma AfterSnoc<D>(devs: Devices<D>, s: State<D>, es: seq<Event<D>>, e: Event<D>)
    ensures var (s1, out) := After(devs, s, es);
      var (s2, more) := Handle(devs, s1, e);
      After(devs, s, es + [e]) == (s2, out + more)
  {
    assert (es + [e])[..|es|] == es;
  }

  lemma StaysRemoteSnoc<D>(devs: Devices<D>, s: State<D>, es: seq<Event<D>>, e: Event<D>)
    requires StaysRemote(devs, s, es + [e])
    ensures StaysRemote(devs, s, es) && After(devs, s, es + [e]).0.remote
  {
    var all := es + [e];
    assert all[..|all|] == all;
    forall i | 0 <= i <= |es|
      ensures es[..i] == all[..i]
    {
    }
  }

  lemma {:induction false} InSessionRun<D>(devs: Devices<D>, s: State<D>, es: seq<Event<D>>)
    requires s.remote && s.activeKbd == None && s.pressed == {}
    requires Proper(es) && StaysRemote(devs, s, es)
    ensures InSession(After(devs, s, es).0, After(devs, s, es).1, es)
    decreases |es|
  {
    if es == [] {
    } else {
      var front, e := es[..|es| - 1], es[|es| - 1];
      assert front + [e] == es;
      StaysRemoteSnoc(devs, s, front, e);
      InSessionRun(devs, s, front);
      AfterSnoc(devs, s, front, e);
      InSessionStep(devs, After(devs, s, front).0, After(devs, s, front).1, front, e);
    }
  }

  // From any reachable local state, entering forwards one release of every
  // tracked key and forgets them; until remote mode is left, exactly the events
  // of one keyboard follow, from its first press on; and a key event then leaves
  // remote mode if and only if it is a press of F1 or F2 while a Win key is held
  // that was pressed since entry.
  lemma SessionShape<D>(devs: Devices<D>, before: seq<Event<D>>, entry: Event<D>, es: seq<Event<D>>, next: Event<D>)
    requires Proper(before) && Proper(es) && next.Key?
    requires var s := After(devs, Boot(), before).0;
      Enters(s, entry) && Enumerates(entry.order, Tracked(s.pressed, entry.code, entry.down))
    requires StaysRemote(devs, Handle(devs, After(devs, Boot(), before).0, entry).0, es)
    ensures var s := After(devs, Boot(), before).0;
      var (s1, released) := Handle(devs, s, entry);
      var (s2, forwarded) := After(devs, s1, es);
      && released == Releases(entry.order)
      && forwarded == Typed(es)
      && (Typed(es) != [] ==> Typed(es)[0].down)
      && (!Handle(devs, s2, next).0.remote <==>
            (next.code == 59 || next.code == 60) && next.down && (Held(es, 125) || Held(es, 126)))
  {
    LocalHasNoKeyboard(devs, before);
    var s := After(devs, Boot(), before).0;
    var (s1, released) := Handle(devs, s, entry);
    assert es[..0] == [];
    assert Exec(devs, s, Track(entry.code, entry.down)).pressed == Tracked(s.pressed, entry.code, entry.down);
    InSessionRun(devs, s1, es);
    TypedStartsWithPress(es);
  }

  lemma EventsOfFirst<D>(es: seq<Event<D>>, kbd: D)
    requires es != [] && es[0].Key? && es[0].kbd == kbd
    ensures EventsOf(es, kbd) != [] && EventsOf(es, kbd)[0] == Forward(es[0].code, es[0].down)
  {
    if |es| == 1 {
      assert EventsOf(es[..0], kbd) == [];
    } else {
      EventsOfFirst(es[..|es| - 1], kbd);
    }
  }

  lemma TypedStartsWithPress<D>(es: seq<Event<D>>)
    ensures Typed(es) != [] ==> Typed(es)[0].down
  {
    var n := FirstPress(es);
    if n < |es| {
      EventsOfFirst(es[n..], es[n].kbd);
    }
  }

  lemma {:induction false} HeldWasPressed<D>(es: seq<Event<D>>, code: uint16)
    requires Held(es, code)
    ensures exists i :: 0 <= i < |es| && es[i].Key? && es[i].code == code && es[i].down
  {
    var e := es[|es| - 1];
    if !(e.Key? && e.code == code) {
      HeldWasPressed(es[..|es| - 1], code);
    }
  }

  // The tracked keys are released exactly once each.
  lemma ReleasedOnce(order: seq<uint16>, codes: set<uint16>, c: uint16)
    requires Enumerates(order, codes)
    ensures multiset(Releases(order))[Forward(c, false)] == if c in codes then 1 else 0
    ensures forall f :: f in Releases(order) ==> !f.down
    decreases |order|
  {
    var r := Releases(order);
    if order != [] {
      var n := |order| - 1;
      var front := order[..n];
      assert order == front + [order[n]];
      ReleasedOnce(front, codes - {order[n]}, c);
      assert Releases(front) + [Forward(order[n], false)] == r;
    }
  }
}
