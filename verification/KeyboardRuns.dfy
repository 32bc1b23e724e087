/** Whole runs of the keyboards, any number of sessions long: which keys the other
    machine is left holding by all that was ever forwarded to it. */
module KeyboardRuns {
  import opened Wrappers
  import opened Bytes
  import opened Capture
  import opened Keyboard
  import opened KeyboardProofs

  // ---- What the forwarded events leave held -----------------------------------------

  // What the receiver of the forwarded events believes of a key.
  predicate Down(out: seq<Forward>, code: uint16) {
    out != [] &&
    var f := out[|out| - 1];
    if f.code == code then f.down else Down(out[..|out| - 1], code)
  }

  ghost predicate OneKeyboard<D>(es: seq<Event<D>>, kbd: D) {
    forall i :: 0 <= i < |es| && es[i].Key? ==> es[i].kbd == kbd
  }

  // The last event of the key on one keyboard was a press.
  predicate HeldOn<D(==)>(es: seq<Event<D>>, kbd: D, code: uint16) {
    es != [] &&
    var e := es[|es| - 1];
    if e.Key? && e.kbd == kbd && e.code == code then e.down else HeldOn(es[..|es| - 1], kbd, code)
  }

  lemma HeldOnSnoc<D>(es: seq<Event<D>>, e: Event<D>, kbd: D, c: uint16)
    ensures HeldOn(es + [e], kbd, c) == if e.Key? && e.kbd == kbd && e.code == c then e.down else HeldOn(es, kbd, c)
  {
    assert (es + [e])[..|es|] == es;
  }

  lemma DownSnoc(out: seq<Forward>, f: Forward, c: uint16)
    ensures Down(out + [f], c) == if f.code == c then f.down else Down(out, c)
  {
    assert (out + [f])[..|out|] == out;
  }

  lemma {:induction false} HeldOnWasPressed<D>(es: seq<Event<D>>, kbd: D, c: uint16)
    requires HeldOn(es, kbd, c)
    ensures FirstPress(es) < |es|
  {
    var front, e := es[..|es| - 1], es[|es| - 1];
    if !(e.Key? && e.kbd == kbd && e.code == c) {
      HeldOnWasPressed(front, kbd, c);
      FirstPressSnoc(front, e);
    }
    assert front + [e] == es;
  }

  // The keyboard a session chose, and what it holds.
  predicate StillHeld<D(==)>(es: seq<Event<D>>, c: uint16) {
    var n := FirstPress(es);
    n < |es| && HeldOn(es, es[n].kbd, c)
  }

  lemma TypedDownStep<D>(es: seq<Event<D>>, e: Event<D>, c: uint16)
    requires Down(Typed(es), c) <==> StillHeld(es, c)
    ensures Down(Typed(es + [e]), c) <==> StillHeld(es + [e], c)
  {
    FirstPressSnoc(es, e);
    TypedSnoc(es, e);
    var n := FirstPress(es);
    if n < |es| {
      HeldOnSnoc(es, e, es[n].kbd, c);
    } else if e.Key? {
      HeldOnSnoc(es, e, e.kbd, c);
      if HeldOn(es, e.kbd, c) {
        HeldOnWasPressed(es, e.kbd, c);
      }
    }
    if e.Key? {
      DownSnoc(Typed(es), Forward(e.code, e.down), c);
    }
    assert Typed(es) + [] == Typed(es);
  }

  lemma {:induction false} TypedDown<D>(es: seq<Event<D>>, c: uint16)
    ensures Down(Typed(es), c) <==> StillHeld(es, c)
    decreases |es|
  {
    if es == [] {
    } else {
      var front := es[..|es| - 1];
      TypedDown(front, c);
      TypedDownStep(front, es[|es| - 1], c);
      assert front + [es[|es| - 1]] == es;
    }
  }

  // Leaving remote mode, by a shortcut on whatever keyboard or because the other
  // machine asked, forwards nothing.
  lemma LeavingIsSilent<D>(devs: Devices<D>, s: State<D>, next: Event<D>)
    requires s.remote && ProperEvent(next) && !Handle(devs, s, next).0.remote
    ensures Handle(devs, s, next).1 == []
    ensures next.Return? || (next.Key? && next.code in {F1, F2} && (LEFT_WIN in s.pressed || RIGHT_WIN in s.pressed))
  {
  }

  // With one keyboard, held on any is held on it.
  lemma {:induction false} OneKeyboardHolds<D>(es: seq<Event<D>>, kbd: D, c: uint16)
    requires OneKeyboard(es, kbd)
    ensures Held(es, c) <==> HeldOn(es, kbd, c)
    ensures Held(es, c) ==> StillHeld(es, c)
    decreases |es|
  {
    if es != [] {
      var front := es[..|es| - 1];
      assert forall i :: 0 <= i < |front| ==> front[i] == es[i];
      OneKeyboardHolds(front, kbd, c);
    }
    if HeldOn(es, kbd, c) {
      HeldOnWasPressed(es, kbd, c);
    }
  }

  // ---- Runs ----------------------------------------------------------------

  // The state after a run from the start, and all it forwarded.
  function At<D(==)>(devs: Devices<D>, es: seq<Event<D>>): State<D> {
    After(devs, Boot(), es).0
  }

  function Out<D(==)>(devs: Devices<D>, es: seq<Event<D>>): seq<Forward> {
    After(devs, Boot(), es).1
  }

  // The last event that entered remote mode, or -1.
  function LastEntry<D(==)>(devs: Devices<D>, es: seq<Event<D>>): (i: int)
    ensures -1 <= i < |es|
  {
    if es == [] then -1
    else if Enters(At(devs, es[..|es| - 1]), es[|es| - 1]) then |es| - 1
    else LastEntry(devs, es[..|es| - 1])
  }

  // The events since then.
  function Since<D(==)>(devs: Devices<D>, es: seq<Event<D>>): seq<Event<D>> {
    es[LastEntry(devs, es) + 1..]
  }

  // Those of them that remote mode lasted through.
  function Session<D(==)>(devs: Devices<D>, es: seq<Event<D>>): seq<Event<D>> {
    if es == [] then []
    else
      var front, e := es[..|es| - 1], es[|es| - 1];
      if Enters(At(devs, front), e) then []
      else if At(devs, es).remote then Session(devs, front) + [e]
      else Session(devs, front)
  }

  // At every entry, ranging over the tracked keys lists exactly them.
  ghost predicate Listed<D>(devs: Devices<D>, es: seq<Event<D>>) {
    forall i :: 0 <= i < |es| && Enters(At(devs, es[..i]), es[i]) ==>
      Enumerates(es[i].order, Tracked(At(devs, es[..i]).pressed, es[i].code, es[i].down))
  }

  lemma RunSnoc<D>(devs: Devices<D>, es: seq<Event<D>>, e: Event<D>)
    ensures var (s, more) := Handle(devs, At(devs, es), e);
      At(devs, es + [e]) == s && Out(devs, es + [e]) == Out(devs, es) + more
    ensures LastEntry(devs, es + [e]) == if Enters(At(devs, es), e) then |es| else LastEntry(devs, es)
    ensures Session(devs, es + [e]) ==
      if Enters(At(devs, es), e) then []
      else if At(devs, es + [e]).remote then Session(devs, es) + [e]
      else Session(devs, es)
  {
    AfterSnoc(devs, Boot(), es, e);
    assert (es + [e])[..|es|] == es;
  }

  // ---- What a run has forwarded ----------------------------------------------

  // All that was forwarded before the last entry, the releases then, and what the
  // session typed; the tracked keys are those held since.
  ghost predicate RunInv<D>(devs: Devices<D>, es: seq<Event<D>>) {
    var i, s, out := LastEntry(devs, es), At(devs, es), Out(devs, es);
    && (forall c :: c in s.pressed <==> Held(Since(devs, es), c))
    && (if i < 0 then !s.remote && out == []
        else es[i].Key? && out == Out(devs, es[..i]) + Releases(es[i].order) + Typed(Session(devs, es)))
    && (s.remote ==> InSession(s, Typed(Session(devs, es)), Session(devs, es)))
  }

  lemma SinceSnoc<D>(devs: Devices<D>, es: seq<Event<D>>, e: Event<D>)
    ensures Since(devs, es + [e]) == if Enters(At(devs, es), e) then [] else Since(devs, es) + [e]
  {
    RunSnoc(devs, es, e);
    DropSnoc(es, e, LastEntry(devs, es) + 1);
  }

  // Every key event is tracked, and entering forgets them all.
  lemma PressedStep<D>(devs: Devices<D>, s: State<D>, e: Event<D>)
    requires ProperEvent(e)
    ensures Handle(devs, s, e).0.pressed ==
      if Enters(s, e) then {} else if e.Key? then Tracked(s.pressed, e.code, e.down) else s.pressed
  {
  }

  lemma PressedAreHeld<D>(devs: Devices<D>, es: seq<Event<D>>, e: Event<D>)
    requires ProperEvent(e) && forall c :: c in At(devs, es).pressed <==> Held(Since(devs, es), c)
    ensures forall c :: c in At(devs, es + [e]).pressed <==> Held(Since(devs, es + [e]), c)
  {
    RunSnoc(devs, es, e);
    SinceSnoc(devs, es, e);
    PressedStep(devs, At(devs, es), e);
    forall c
      ensures c in At(devs, es + [e]).pressed <==> Held(Since(devs, es + [e]), c)
    {
      HeldSnoc(Since(devs, es), e, c);
    }
  }

  // What an event forwards, by the mode before and after it.
  lemma QuietUnlessRemote<D>(devs: Devices<D>, s: State<D>, e: Event<D>)
    requires ProperEvent(e) && !Enters(s, e)
    ensures !s.remote ==> !Handle(devs, s, e).0.remote && Handle(devs, s, e).1 == []
    ensures !Handle(devs, s, e).0.remote ==> Handle(devs, s, e).1 == []
  {
    if s.remote && !Handle(devs, s, e).0.remote {
      LeavingIsSilent(devs, s, e);
    }
  }

  lemma EntryStep<D>(devs: Devices<D>, s: State<D>, e: Event<D>)
    requires Enters(s, e)
    ensures var (s', out) := Handle(devs, s, e);
      s'.remote && s'.pressed == {} && s'.activeKbd == s.activeKbd && out == Releases(e.order)
  {
    assert Exec(devs, s, Track(e.code, e.down)).pressed == Tracked(s.pressed, e.code, e.down);
  }

  lemma EntryKeeps<D>(devs: Devices<D>, es: seq<Event<D>>, e: Event<D>)
    requires Proper(es) && ProperEvent(e) && RunInv(devs, es) && Enters(At(devs, es), e)
    ensures RunInv(devs, es + [e])
  {
    RunSnoc(devs, es, e);
    PressedAreHeld(devs, es, e);
    EntryStep(devs, At(devs, es), e);
    LocalHasNoKeyboard(devs, es);
    assert (es + [e])[..|es|] == es && (es + [e])[|es|] == e;
    assert Typed<D>([]) == [];
    assert Releases(e.order) + [] == Releases(e.order);
    assert Out(devs, es) + Releases(e.order) + [] == Out(devs, es) + Releases(e.order);
  }

  lemma OtherKeeps<D>(devs: Devices<D>, es: seq<Event<D>>, e: Event<D>)
    requires ProperEvent(e) && RunInv(devs, es) && !Enters(At(devs, es), e)
    ensures RunInv(devs, es + [e])
  {
    RunSnoc(devs, es, e);
    PressedAreHeld(devs, es, e);
    QuietUnlessRemote(devs, At(devs, es), e);
    var i, s, session := LastEntry(devs, es), At(devs, es), Session(devs, es);
    var (s', more) := Handle(devs, s, e);
    if i >= 0 {
      assert (es + [e])[..i] == es[..i] && (es + [e])[i] == es[i];
      Associative(Out(devs, es[..i]) + Releases(es[i].order), Typed(session), more);
    }
    if s'.remote {
      InSessionStep(devs, s, Typed(session), session, e);
    } else {
      assert Out(devs, es) + [] == Out(devs, es);
    }
  }

  lemma {:induction false} RunKeeps<D>(devs: Devices<D>, es: seq<Event<D>>)
    requires Proper(es)
    ensures RunInv(devs, es)
    decreases |es|
  {
    if es == [] {
      assert After(devs, Boot(), es).1 == [];
    } else {
      var front, e := es[..|es| - 1], es[|es| - 1];
      RunKeeps(devs, front);
      assert front + [e] == es;
      if Enters(At(devs, front), e) {
        EntryKeeps(devs, front, e);
      } else {
        OtherKeeps(devs, front, e);
      }
    }
  }

  // After any run, in either mode: a key event switches the mode if and only if it
  // is a press of F1 or F2 while a Win key is held that was pressed since remote
  // mode was last entered.
  lemma SwitchesIff<D>(devs: Devices<D>, es: seq<Event<D>>, e: Event<D>)
    requires Proper(es) && e.Key?
    ensures At(devs, es + [e]).remote != At(devs, es).remote <==>
      (e.code == 59 || e.code == 60) && e.down && (Held(Since(devs, es), 125) || Held(Since(devs, es), 126))
  {
    RunKeeps(devs, es);
    RunSnoc(devs, es, e);
    var s := At(devs, es);
    assert forall c :: c in s.pressed <==> Held(Since(devs, es), c);
    ModeStep(devs, s, e);
  }

  lemma ModeStep<D>(devs: Devices<D>, s: State<D>, e: Event<D>)
    requires e.Key?
    ensures Handle(devs, s, e).0.remote != s.remote <==>
      (e.code == 59 || e.code == 60) && e.down && (125 in s.pressed || 126 in s.pressed)
  {
  }

  // ---- What it leaves held -----------------------------------------------------

  predicate Mentions(out: seq<Forward>, c: uint16) {
    exists i :: 0 <= i < |out| && out[i].code == c
  }

  lemma {:induction false} DownAppend(a: seq<Forward>, b: seq<Forward>, c: uint16)
    ensures Down(a + b, c) == if Mentions(b, c) then Down(b, c) else Down(a, c)
    decreases |b|
  {
    if b == [] {
      assert a + b == a;
    } else {
      var front, f := b[..|b| - 1], b[|b| - 1];
      DownAppend(a, front, c);
      Associative(a, front, [f]);
      assert b == front + [f];
      DownSnoc(a + front, f, c);
      if Mentions(front, c) {
        var i :| 0 <= i < |front| && front[i].code == c;
        assert b[i].code == c;
      }
    }
  }

  lemma {:induction false} ReleasesLeaveUp(order: seq<uint16>, c: uint16)
    ensures !Down(Releases(order), c)
    ensures Mentions(Releases(order), c) <==> c in order
    decreases |order|
  {
    var r := Releases(order);
    if order == [] {
    } else {
      var front, last := order[..|order| - 1], order[|order| - 1];
      ReleasesLeaveUp(front, c);
      assert r == Releases(front) + [Forward(last, false)];
      DownSnoc(Releases(front), Forward(last, false), c);
    }
    if c in order {
      var i :| 0 <= i < |order| && order[i] == c;
      assert r[i].code == c;
    }
  }

  predicate SentOn<D(==)>(es: seq<Event<D>>, kbd: D, c: uint16) {
    exists i :: 0 <= i < |es| && es[i].Key? && es[i].kbd == kbd && es[i].code == c
  }

  lemma SentOnSnoc<D>(es: seq<Event<D>>, e: Event<D>, kbd: D, c: uint16)
    ensures SentOn(es + [e], kbd, c) <==> SentOn(es, kbd, c) || (e.Key? && e.kbd == kbd && e.code == c)
  {
    var all := es + [e];
    if SentOn(es, kbd, c) {
      var i :| 0 <= i < |es| && es[i].Key? && es[i].kbd == kbd && es[i].code == c;
      assert all[i] == es[i];
    }
    assert all[|es|] == e;
  }

  lemma {:induction false} EventsOfMention<D>(es: seq<Event<D>>, kbd: D, c: uint16)
    ensures Mentions(EventsOf(es, kbd), c) <==> SentOn(es, kbd, c)
    decreases |es|
  {
    if es == [] {
    } else {
      var front, e := es[..|es| - 1], es[|es| - 1];
      EventsOfMention(front, kbd, c);
      SentOnSnoc(front, e, kbd, c);
      assert front + [e] == es;
      var more := if e.Key? && e.kbd == kbd then [Forward(e.code, e.down)] else [];
      MentionsAppend(EventsOf(front, kbd), more, c);
      assert more != [] ==> more[0].code == e.code;
    }
  }

  lemma MentionsAppend(a: seq<Forward>, b: seq<Forward>, c: uint16)
    ensures Mentions(a + b, c) <==> Mentions(a, c) || Mentions(b, c)
  {
    if Mentions(a, c) {
      var i :| 0 <= i < |a| && a[i].code == c;
      assert (a + b)[i].code == c;
    }
    if Mentions(b, c) {
      var i :| 0 <= i < |b| && b[i].code == c;
      assert (a + b)[|a| + i].code == c;
    }
  }

  // The session's keyboard sent some event of the key, from its first press on.
  predicate Touched<D(==)>(es: seq<Event<D>>, c: uint16) {
    var n := FirstPress(es);
    n < |es| && SentOn(es[n..], es[n].kbd, c)
  }

  lemma TypedMentions<D>(es: seq<Event<D>>, c: uint16)
    ensures Mentions(Typed(es), c) <==> Touched(es, c)
  {
    var n := FirstPress(es);
    if n < |es| {
      EventsOfMention(es[n..], es[n].kbd, c);
    }
  }

  // The key was tracked when remote mode was entered: its last event since the
  // entry before was a press.
  predicate TrackedAtEntry<D(==)>(devs: Devices<D>, es: seq<Event<D>>, c: uint16) {
    var i := LastEntry(devs, es);
    i >= 0 && Held(Since(devs, es[..i]) + [es[i]], c)
  }

  // Read off the events of the whole run: what the other machine holds is what
  // the last session's keyboard says of the key, or else, unless the key was
  // tracked and so released when that session began, what was held before.
  predicate HeldThere<D(==)>(devs: Devices<D>, es: seq<Event<D>>, c: uint16)
    decreases |es|
  {
    var i, session := LastEntry(devs, es), Session(devs, es);
    i >= 0 &&
    if Touched(session, c) then StillHeld(session, c)
    else !TrackedAtEntry(devs, es, c) && HeldThere(devs, es[..i], c)
  }

  lemma OrderIsTracked<D>(devs: Devices<D>, es: seq<Event<D>>, c: uint16)
    requires Proper(es) && Listed(devs, es) && LastEntry(devs, es) >= 0
    ensures var i := LastEntry(devs, es); es[i].Key? && (c in es[i].order <==> TrackedAtEntry(devs, es, c))
  {
    var i := LastEntry(devs, es);
    LastEntryEnters(devs, es);
    RunKeeps(devs, es[..i]);
    HeldSnoc(Since(devs, es[..i]), es[i], c);
  }

  lemma {:induction false} LastEntryEnters<D>(devs: Devices<D>, es: seq<Event<D>>)
    requires LastEntry(devs, es) >= 0
    ensures var i := LastEntry(devs, es); Enters(At(devs, es[..i]), es[i])
    decreases |es|
  {
    var front := es[..|es| - 1];
    var i := LastEntry(devs, es);
    if i < |front| {
      LastEntryEnters(devs, front);
      assert front[..i] == es[..i];
    }
  }

  lemma ListedPrefix<D>(devs: Devices<D>, es: seq<Event<D>>, n: nat)
    requires n <= |es| && Listed(devs, es)
    ensures Listed(devs, es[..n])
  {
    forall i | 0 <= i < n
      ensures es[..n][..i] == es[..i]
    {
    }
  }

  // One session more.
  lemma DownAfterSession<D>(before: seq<Forward>, order: seq<uint16>, session: seq<Event<D>>, c: uint16)
    ensures Down(before + Releases(order) + Typed(session), c) <==>
      if Touched(session, c) then StillHeld(session, c) else c !in order && Down(before, c)
  {
    ReleasesLeaveUp(order, c);
    DownAppend(before, Releases(order), c);
    DownAppend(before + Releases(order), Typed(session), c);
    TypedMentions(session, c);
    TypedDown(session, c);
  }

  // For every run, of any number of sessions and wherever it stops: a key is left
  // down by all that was ever forwarded exactly when the events say so.
  lemma {:induction false} ForwardedLeavesDown<D>(devs: Devices<D>, es: seq<Event<D>>, c: uint16)
    requires Proper(es) && Listed(devs, es)
    ensures Down(Out(devs, es), c) <==> HeldThere(devs, es, c)
    decreases |es|
  {
    RunKeeps(devs, es);
    var i, session := LastEntry(devs, es), Session(devs, es);
    if i < 0 {
    } else {
      ListedPrefix(devs, es, i);
      ForwardedLeavesDown(devs, es[..i], c);
      OrderIsTracked(devs, es, c);
      DownAfterSession(Out(devs, es[..i]), es[i].order, session, c);
    }
  }

  ghost predicate AllUp(out: seq<Forward>) {
    forall c: uint16 :: !Down(out, c)
  }

  // Nothing is left down by a run exactly when it never entered remote mode, or
  // its last session's keyboard holds nothing and every key held there before it
  // was released: at entry, because it was tracked, or by that keyboard.
  ghost predicate LeavesNothing<D>(devs: Devices<D>, es: seq<Event<D>>) {
    var i, session := LastEntry(devs, es), Session(devs, es);
    i >= 0 ==> forall c: uint16 ::
      !StillHeld(session, c) && (HeldThere(devs, es[..i], c) ==> TrackedAtEntry(devs, es, c) || Touched(session, c))
  }

  lemma CleanReturnIff<D>(devs: Devices<D>, es: seq<Event<D>>)
    requires Proper(es) && Listed(devs, es)
    ensures AllUp(Out(devs, es)) <==> LeavesNothing(devs, es)
  {
    var i, session := LastEntry(devs, es), Session(devs, es);
    forall c: uint16
      ensures Down(Out(devs, es), c) <==> HeldThere(devs, es, c)
      ensures StillHeld(session, c) ==> Touched(session, c)
    {
      ForwardedLeavesDown(devs, es, c);
      HeldIsTouched(session, c);
    }
    if i >= 0 {
      forall c: uint16
        ensures HeldThere(devs, es, c) <==>
          !(!StillHeld(session, c) && (HeldThere(devs, es[..i], c) ==> TrackedAtEntry(devs, es, c) || Touched(session, c)))
      {
      }
    }
  }

  lemma HeldIsTouched<D>(es: seq<Event<D>>, c: uint16)
    ensures StillHeld(es, c) ==> Touched(es, c)
  {
    TypedDown(es, c);
    TypedMentions(es, c);
    DownAppend([], Typed(es), c);
    assert [] + Typed(es) == Typed(es);
  }

  // A return by shortcut on the only keyboard used in the session is never clean:
  // the Win key of the shortcut itself stays down on the other machine.
  lemma ShortcutLeavesWinDown<D>(devs: Devices<D>, es: seq<Event<D>>, next: Event<D>)
    requires Proper(es) && ProperEvent(next) && Listed(devs, es + [next])
    requires At(devs, es).remote && !At(devs, es + [next]).remote
    requires next.Key? && OneKeyboard(Session(devs, es), next.kbd)
    ensures var out := Out(devs, es + [next]);
      Down(out, 125) || Down(out, 126)
  {
    RunKeeps(devs, es);
    RunSnoc(devs, es, next);
    LeavingIsSilent(devs, At(devs, es), next);
    var session := Session(devs, es);
    var win := if LEFT_WIN in At(devs, es).pressed then LEFT_WIN else RIGHT_WIN;
    OneKeyboardHolds(session, next.kbd, win);
    HeldIsTouched(session, win);
    assert (es + [next])[..|es|] == es;
    var i := LastEntry(devs, es);
    ForwardedLeavesDown(devs, es + [next], win);
  }

  // ---- A key from an earlier session -------------------------------------------

  const KEY_A: uint16 := 30

  function Press<D>(kbd: D, code: uint16): Event<D> {
    Key(kbd, code, true, [LEFT_WIN, F1], {})
  }

  // A is pressed in a first session, and the other machine asks for a return.
  function First<D>(kbd: D): seq<Event<D>> {
    [] + [Press(kbd, LEFT_WIN)] + [Press(kbd, F1)] + [Press(kbd, KEY_A)] + [Return]
  }

  lemma ListedSnoc<D>(devs: Devices<D>, es: seq<Event<D>>, e: Event<D>)
    requires Proper(es) && ProperEvent(e) && Listed(devs, es)
    requires Enters(At(devs, es), e) ==> Enumerates(e.order, Tracked(At(devs, es).pressed, e.code, e.down))
    ensures Proper(es + [e]) && Listed(devs, es + [e])
  {
    var all := es + [e];
    assert all[..|es|] == es;
    forall i | 0 <= i < |es|
      ensures all[..i] == es[..i] && all[i] == es[i]
    {
    }
  }

  // One event more, with the state and the forwards so far at hand.
  lemma Next<D>(devs: Devices<D>, es: seq<Event<D>>, s: State<D>, out: seq<Forward>, e: Event<D>, s': State<D>,
        more: seq<Forward>)
    requires Proper(es) && Listed(devs, es) && At(devs, es) == s && Out(devs, es) == out
    requires ProperEvent(e) && Handle(devs, s, e) == (s', more)
    requires Enters(s, e) ==> Enumerates(e.order, Tracked(s.pressed, e.code, e.down))
    ensures Proper(es + [e]) && Listed(devs, es + [e]) && At(devs, es + [e]) == s' && Out(devs, es + [e]) == out + more
    ensures Session(devs, es + [e]) ==
      if Enters(s, e) then [] else if s'.remote then Session(devs, es) + [e] else Session(devs, es)
  {
    RunSnoc(devs, es, e);
    ListedSnoc(devs, es, e);
  }

  lemma EnterHoldingWin<D>(devs: Devices<D>, es: seq<Event<D>>, s: State<D>, out: seq<Forward>, kbd: D)
    requires Proper(es) && Listed(devs, es) && At(devs, es) == s && Out(devs, es) == out
    requires !s.remote && s.activeKbd.None? && s.pressed == {LEFT_WIN}
    ensures var all := es + [Press(kbd, F1)];
      && Proper(all) && Listed(devs, all) && Session(devs, all) == []
      && At(devs, all).remote && At(devs, all).activeKbd.None? && At(devs, all).pressed == {}
      && Out(devs, all) == out + [Forward(LEFT_WIN, false), Forward(F1, false)]
  {
    var f := Press(kbd, F1);
    assert Tracked(s.pressed, F1, true) == {LEFT_WIN, F1};
    EntryStep(devs, s, f);
    Next(devs, es, s, out, f, Handle(devs, s, f).0, Releases(f.order));
    assert Releases(f.order) == [Forward(LEFT_WIN, false), Forward(F1, false)];
  }

  // Win and then F1 in local mode, nothing else being held.
  lemma EnterAfresh<D>(devs: Devices<D>, es: seq<Event<D>>, s: State<D>, out: seq<Forward>, kbd: D)
    requires Proper(es) && Listed(devs, es) && At(devs, es) == s && Out(devs, es) == out
    requires !s.remote && s.activeKbd.None? && s.pressed == {}
    ensures var all := es + [Press(kbd, LEFT_WIN)] + [Press(kbd, F1)];
      && Proper(all) && Listed(devs, all) && Session(devs, all) == []
      && At(devs, all).remote && At(devs, all).activeKbd.None? && At(devs, all).pressed == {}
      && Out(devs, all) == out + [Forward(LEFT_WIN, false), Forward(F1, false)]
  {
    var s1 := s.(pressed := {LEFT_WIN});
    assert Tracked(s.pressed, LEFT_WIN, true) == {LEFT_WIN};
    Next(devs, es, s, out, Press(kbd, LEFT_WIN), s1, []);
    assert out + [] == out;
    EnterHoldingWin(devs, es + [Press(kbd, LEFT_WIN)], s1, out, kbd);
  }

  lemma AfterFirst<D>(devs: Devices<D>, kbd: D)
    ensures var s := At(devs, First(kbd)); !s.remote && s.activeKbd.None? && s.pressed == {KEY_A}
    ensures Out(devs, First(kbd)) == [Forward(LEFT_WIN, false), Forward(F1, false), Forward(KEY_A, true)]
    ensures Proper(First(kbd)) && Listed(devs, First(kbd))
  {
    EnterAfresh(devs, [], Boot(), [], kbd);
    var es, a := [] + [Press(kbd, LEFT_WIN)] + [Press(kbd, F1)], Press(kbd, KEY_A);
    var s1 := At(devs, es);
    var s2 := s1.(pressed := {KEY_A}, activeKbd := Some(kbd));
    assert Tracked(s1.pressed, KEY_A, true) == {KEY_A};
    Next(devs, es, s1, Out(devs, es), a, s2, [Forward(KEY_A, true)]);
    Next(devs, es + [a], s2, Out(devs, es + [a]), Return, Ungrab(s2), []);
  }

  // A let go in local mode, and the second session entered.
  function Again<D>(kbd: D): seq<Event<D>> {
    First(kbd) + [Key(kbd, KEY_A, false, [], {})] + [Press(kbd, LEFT_WIN)] + [Press(kbd, F1)]
  }

  lemma AfterAgain<D>(devs: Devices<D>, kbd: D)
    ensures var es := Again(kbd);
      && Proper(es) && Listed(devs, es) && Session(devs, es) == [] && At(devs, es).remote
      && Out(devs, es) == Out(devs, First(kbd)) + Releases([LEFT_WIN, F1])
  {
    AfterFirst(devs, kbd);
    var up := Key(kbd, KEY_A, false, [], {});
    var es, s, out := First(kbd), At(devs, First(kbd)), Out(devs, First(kbd));
    assert Tracked(s.pressed, KEY_A, false) == {};
    Next(devs, es, s, out, up, s.(pressed := {}), []);
    assert out + [] == out;
    EnterAfresh(devs, es + [up], s.(pressed := {}), out, kbd);
    assert Releases([LEFT_WIN, F1]) == [Forward(LEFT_WIN, false), Forward(F1, false)];
  }

  lemma FirstLeavesDown<D>(devs: Devices<D>, kbd: D)
    ensures Down(Out(devs, First(kbd)) + Releases([LEFT_WIN, F1]), KEY_A)
  {
    AfterFirst(devs, kbd);
    ReleasesLeaveUp([LEFT_WIN, F1], KEY_A);
    DownAppend(Out(devs, First(kbd)), Releases([LEFT_WIN, F1]), KEY_A);
  }

  // The second session holds nothing and is left, and still A stays down there.
  lemma EarlierKeyStays<D>(devs: Devices<D>, kbd: D)
    ensures var es := Again(kbd) + [Return];
      && !At(devs, es).remote && Session(devs, es) == []
      && Proper(es) && Listed(devs, es)
      && Down(Out(devs, es), KEY_A)
  {
    AfterAgain(devs, kbd);
    FirstLeavesDown(devs, kbd);
    var s, out := At(devs, Again(kbd)), Out(devs, Again(kbd));
    Next(devs, Again(kbd), s, out, Return, Ungrab(s), []);
    assert out + [] == out;
  }
}
