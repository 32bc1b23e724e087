/** What is grabbed and what makes a mouse active, read off the sections and the
    raw events. */
module CaptureRuns {
  import opened Wrappers
  import opened Bytes
  import opened Detector
  import opened Capture
  import opened CaptureProofs

  // ---- Keyboards -----------------------------------------------------------

  predicate StaysGrabbed<D>(cs: seq<Section<D>>, i: nat) {
    forall j :: i < j < |cs| ==> !cs[j].UngrabAll?
  }

  // Remote mode was entered, and not left since.
  predicate Entered<D>(cs: seq<Section<D>>) {
    exists i :: 0 <= i < |cs| && cs[i].GrabAll? && StaysGrabbed(cs, i)
  }

  // This keyboard's grab worked at some entry, and remote mode was not left since.
  predicate WorkedSince<D(==)>(cs: seq<Section<D>>, kbd: D) {
    exists i :: 0 <= i < |cs| && cs[i].GrabAll? && kbd in cs[i].worksFor && StaysGrabbed(cs, i)
  }

  lemma StaysGrabbedSnoc<D>(cs: seq<Section<D>>, c: Section<D>, i: nat)
    requires i < |cs|
    ensures StaysGrabbed(cs + [c], i) <==> StaysGrabbed(cs, i) && !c.UngrabAll?
  {
    var all := cs + [c];
    assert all[|cs|] == c;
    forall j | i < j < |cs|
      ensures all[j] == cs[j]
    {
    }
  }

  lemma EnteredSnoc<D>(cs: seq<Section<D>>, c: Section<D>)
    ensures Entered(cs + [c]) <==> c.GrabAll? || (Entered(cs) && !c.UngrabAll?)
  {
    var all := cs + [c];
    assert all[|cs|] == c && StaysGrabbed(all, |cs|);
    forall i | 0 <= i < |cs|
      ensures all[i] == cs[i] && (StaysGrabbed(all, i) <==> StaysGrabbed(cs, i) && !c.UngrabAll?)
    {
      StaysGrabbedSnoc(cs, c, i);
    }
  }

  lemma WorkedSnoc<D>(cs: seq<Section<D>>, c: Section<D>, kbd: D)
    ensures WorkedSince(cs + [c], kbd) <==> (c.GrabAll? && kbd in c.worksFor) || (WorkedSince(cs, kbd) && !c.UngrabAll?)
  {
    var all := cs + [c];
    assert all[|cs|] == c && StaysGrabbed(all, |cs|);
    forall i | 0 <= i < |cs|
      ensures all[i] == cs[i] && (StaysGrabbed(all, i) <==> StaysGrabbed(cs, i) && !c.UngrabAll?)
    {
      StaysGrabbedSnoc(cs, c, i);
    }
  }

  lemma KeyboardsStep<D>(devs: Devices<D>, s: State<D>, c: Section<D>, kbd: D)
    ensures Exec(devs, s, c).remote == (c.GrabAll? || (s.remote && !c.UngrabAll?))
    ensures kbd in Exec(devs, s, c).kbds <==>
      || (c.GrabAll? && kbd in c.worksFor && kbd in devs.kbds && kbd !in devs.combo)
      || (kbd in s.kbds && !c.UngrabAll?)
  {
  }

  // In every interleaving: the mode is what the entries and exits say, and the
  // grabbed keyboards are exactly the handles that share no mouse's path and whose
  // grab worked since remote mode was last left.
  lemma {:induction false} KeyboardsGrabbedIff<D>(devs: Devices<D>, cs: seq<Section<D>>, kbd: D)
    ensures Run(devs, cs).remote <==> Entered(cs)
    ensures kbd in Run(devs, cs).kbds <==> kbd in devs.kbds && kbd !in devs.combo && WorkedSince(cs, kbd)
    decreases |cs|
  {
    if cs == [] {
    } else {
      var front, c := cs[..|cs| - 1], cs[|cs| - 1];
      KeyboardsGrabbedIff(devs, front, kbd);
      KeyboardsStep(devs, Run(devs, front), c, kbd);
      EnteredSnoc(front, c);
      WorkedSnoc(front, c, kbd);
      assert front + [c] == cs;
    }
  }

  // ---- The mouse -----------------------------------------------------------

  // The mouse a section is about.
  function MouseOf<D(==)>(devs: Devices<D>, active: Option<D>, c: Section<D>): Option<D> {
    match c
    case MouseEvent(m, _, _, _) => Some(m)
    case KeyboardButton(k, _, _, _) => SourceFor(devs, active, k)
    case _ => None
  }

  // Section i made its mouse the active one, and it has been since.
  ghost predicate Selected<D>(devs: Devices<D>, cs: seq<Section<D>>, i: nat) {
    && i < |cs| && (cs[i].MouseEvent? || cs[i].KeyboardButton?)
    && Run(devs, cs).active.Some?
    && MouseOf(devs, Run(devs, cs[..i]).active, cs[i]) == Run(devs, cs).active != Run(devs, cs[..i]).active
    && forall j :: i < j <= |cs| ==> Run(devs, cs[..j]).active == Run(devs, cs).active
  }

  // A section that leaves the active mouse alone leaves the mouse grabs alone; one
  // that makes another active has that one grabbed if its own grab worked.
  lemma MiceStep<D>(devs: Devices<D>, s: State<D>, c: Section<D>)
    requires GrabInv(devs, s)
    ensures var s' := Exec(devs, s, c);
      && (s'.active == s.active ==> s'.mice == s.mice)
      && (s'.active.None? ==> s'.mice == {})
      && (s'.active.Some? && s'.active != s.active ==>
            && (c.MouseEvent? || c.KeyboardButton?)
            && s'.active == MouseOf(devs, s.active, c)
            && s'.mice == if c.works then {s'.active.value} else {})
  {
  }

  lemma JustSelected<D>(devs: Devices<D>, cs: seq<Section<D>>, c: Section<D>)
    requires c.MouseEvent? || c.KeyboardButton?
    requires Run(devs, cs + [c]).active.Some? && Run(devs, cs + [c]).active != Run(devs, cs).active
    requires Run(devs, cs + [c]).active == MouseOf(devs, Run(devs, cs).active, c)
    ensures Selected(devs, cs + [c], |cs|)
  {
    var all := cs + [c];
    assert all[..|cs|] == cs && all[..|all|] == all;
  }

  lemma StillSelected<D>(devs: Devices<D>, cs: seq<Section<D>>, c: Section<D>, i: nat)
    requires Selected(devs, cs, i) && Run(devs, cs + [c]).active == Run(devs, cs).active
    ensures Selected(devs, cs + [c], i)
  {
    var all := cs + [c];
    assert all[..|all|] == all;
    forall j | 0 <= j <= |cs|
      ensures all[..j] == cs[..j]
    {
    }
  }

  // In every interleaving: no active mouse and nothing is grabbed, or exactly the
  // active mouse is grabbed if the grab at its last selection worked, and nothing
  // if it did not.
  lemma {:induction false} MouseGrabbedIff<D>(devs: Devices<D>, cs: seq<Section<D>>) returns (i: nat)
    requires Sensible(devs) && AllLegal(devs, cs)
    ensures match Run(devs, cs).active
      case None => Run(devs, cs).mice == {}
      case Some(m) => Selected(devs, cs, i) && Run(devs, cs).mice == if cs[i].works then {m} else {}
    decreases |cs|
  {
    i := 0;
    if cs == [] {
    } else {
      var front, c := cs[..|cs| - 1], cs[|cs| - 1];
      var s := Run(devs, front);
      assert forall k :: 0 <= k < |front| ==> front[k] == cs[k];
      GrabsAlwaysSound(devs, front);
      MiceStep(devs, s, c);
      i := MouseGrabbedIff(devs, front);
      assert front + [c] == cs;
      if Run(devs, cs).active.Some? {
        if Run(devs, cs).active == s.active {
          StillSelected(devs, front, c, i);
        } else {
          i := |front|;
          JustSelected(devs, front, c);
        }
      }
    }
  }

  // ---- What makes a mouse active -------------------------------------------

  // A relative event along either axis; neither zero nor the least int32.
  predicate Moves(ev: InputEvent) {
    ev.typ == 2 && (ev.code == 0 || ev.code == 1) && ev.value != 0 && ev.value != -0x8000_0000
  }

  predicate Presses(ev: InputEvent) {
    ev.typ == 1 && ev.value == 1 && 0x110 <= ev.code <= 0x11F
  }

  function Distance(ev: InputEvent): int {
    if ev.value < 0 then -(ev.value as int) else ev.value
  }

  // A movement of this mouse still counts.
  predicate Counts<D(==)>(s: State<D>, mouse: D, now: int) {
    s.pending.Candidate? && s.pending.mouse == mouse && now <= s.pending.until
  }

  function Feed<D(==)>(devs: Devices<D>, s: State<D>, mouse: D, ev: InputEvent, now: int, works: bool): State<D> {
    Exec(devs, s, MouseEvent(mouse, ev, now, works))
  }

  // A first movement.
  lemma FirstMove<D>(devs: Devices<D>, s: State<D>, mouse: D, a: InputEvent, t: int, works: bool)
    requires s.remote && s.active != Some(mouse) && Moves(a) && !Counts(s, mouse, t)
    ensures Feed(devs, s, mouse, a, t, works) == s.(pending := Candidate(mouse, 1, Distance(a), t + 150_000_000))
  {
  }

  // A second one.
  lemma NextMove<D>(devs: Devices<D>, s: State<D>, mouse: D, b: InputEvent, t: int, works: bool)
    requires s.remote && s.active != Some(mouse) && Moves(b) && s.pending.Candidate? && s.pending.mouse == mouse
    requires s.pending.hits >= 1
    ensures Feed(devs, s, mouse, b, t, works).active == Some(mouse) <==>
      t <= s.pending.until && s.pending.motion + Distance(b) >= 4
  {
  }

  // Two movements of a mouse that has none pending make it active, in place of
  // another or of none, exactly when they are at most 150 ms apart and go four
  // counts in all, whatever the axes and the directions.
  lemma TwoMovesIff<D>(devs: Devices<D>, s: State<D>, mouse: D, a: InputEvent, b: InputEvent,
        t: int, t': int, w: bool, w': bool)
    requires s.remote && s.active != Some(mouse) && !Counts(s, mouse, t) && Moves(a) && Moves(b)
    ensures var s1 := Feed(devs, s, mouse, a, t, w);
      && s1.active == s.active
      && (Feed(devs, s1, mouse, b, t', w').active == Some(mouse) <==>
            t' - t <= 150_000_000 && Distance(a) + Distance(b) >= 4)
  {
    FirstMove(devs, s, mouse, a, t, w);
    NextMove(devs, Feed(devs, s, mouse, a, t, w), mouse, b, t', w');
  }

  // After any interleaving without the least int32, movements already pending can
  // only help.
  lemma TwoMovesActivate<D>(devs: Devices<D>, cs: seq<Section<D>>, mouse: D, a: InputEvent, b: InputEvent,
        t: int, t': int, w: bool, w': bool)
    requires NoLeastInt(cs) && Moves(a) && Moves(b)
    requires Run(devs, cs).remote && Run(devs, cs).active != Some(mouse)
    requires t' - t <= 150_000_000 && Distance(a) + Distance(b) >= 4
    ensures Feed(devs, Feed(devs, Run(devs, cs), mouse, a, t, w), mouse, b, t', w').active == Some(mouse)
  {
    var s := Run(devs, cs);
    var h := History(devs, cs);
    HistoryPositive(devs, cs);
    PendingIsReplay(devs, cs);
    PendingBound(h);
    if Counts(s, mouse, t) {
      MovesMore(devs, s, mouse, a, b, t, t', w, w');
    } else {
      TwoMovesIff(devs, s, mouse, a, b, t, t', w, w');
    }
  }

  lemma MovesMore<D>(devs: Devices<D>, s: State<D>, mouse: D, a: InputEvent, b: InputEvent,
        t: int, t': int, w: bool, w': bool)
    requires s.remote && s.active != Some(mouse) && Counts(s, mouse, t) && Moves(a) && Moves(b)
    requires s.pending.motion >= 0
    requires t' - t <= 150_000_000 && Distance(a) + Distance(b) >= 4
    ensures Feed(devs, Feed(devs, s, mouse, a, t, w), mouse, b, t', w').active == Some(mouse)
  {
    var s1 := Feed(devs, s, mouse, a, t, w);
    if s1.active != Some(mouse) {
      assert s1.pending == Candidate(mouse, s.pending.hits + 1, s.pending.motion + Distance(a), t + 150_000_000);
    }
  }

  // An event that is neither a movement nor a press, between the two, of whatever
  // mouse, breaks them apart if it comes 150 ms after the first or later.
  lemma InterruptedMovesIff<D>(devs: Devices<D>, s: State<D>, mouse: D, a: InputEvent, b: InputEvent,
        t: int, t': int, w: bool, w': bool, other: D, e: InputEvent, u: int)
    requires s.remote && s.active != Some(mouse) && !Counts(s, mouse, t) && Moves(a) && Moves(b)
    requires !Presses(e) && !(e.typ == 2 && (e.code == 0 || e.code == 1) && e.value != 0)
    ensures var s1 := Feed(devs, Feed(devs, s, mouse, a, t, w), other, e, u, w);
      && s1.active == s.active
      && (Feed(devs, s1, mouse, b, t', w').active == Some(mouse) <==>
            u - t < 150_000_000 && t' - t <= 150_000_000 && Distance(a) + Distance(b) >= 4)
  {
    FirstMove(devs, s, mouse, a, t, w);
    var s0 := Feed(devs, s, mouse, a, t, w);
    var s1 := Feed(devs, s0, other, e, u, w);
    assert s1 == if u < t + 150_000_000 then s0 else s.(pending := Idle);
    if u < t + 150_000_000 {
      NextMove(devs, s1, mouse, b, t', w');
    } else {
      FirstMove(devs, s1, mouse, b, t', w');
    }
  }

  // So does a movement of a third mouse.
  lemma OtherMouseBreaks<D>(devs: Devices<D>, s: State<D>, mouse: D, a: InputEvent, b: InputEvent,
        t: int, t': int, w: bool, w': bool, other: D, e: InputEvent, u: int)
    requires s.remote && s.active != Some(mouse) && s.active != Some(other) && mouse != other
    requires !Counts(s, other, u) && Moves(a) && Moves(b) && Moves(e) && !Counts(s, mouse, t)
    ensures Feed(devs, Feed(devs, Feed(devs, s, mouse, a, t, w), other, e, u, w), mouse, b, t', w').active == s.active
  {
    FirstMove(devs, s, mouse, a, t, w);
    var s1 := Feed(devs, s, mouse, a, t, w);
    FirstMove(devs, s1, other, e, u, w);
    FirstMove(devs, Feed(devs, s1, other, e, u, w), mouse, b, t', w');
  }

  // So does a press that makes another mouse active, and so does entering remote
  // mode afresh.
  lemma PressBreaks<D>(devs: Devices<D>, s: State<D>, mouse: D, a: InputEvent, b: InputEvent,
        t: int, t': int, w: bool, w': bool, other: D, e: InputEvent, u: int)
    requires s.remote && s.active != Some(mouse) && s.active != Some(other) && mouse != other
    requires Moves(a) && Moves(b) && Presses(e) && !Counts(s, mouse, t)
    ensures Feed(devs, Feed(devs, Feed(devs, s, mouse, a, t, w), other, e, u, w), mouse, b, t', w').active == Some(other)
  {
    FirstMove(devs, s, mouse, a, t, w);
    FirstMove(devs, Feed(devs, Feed(devs, s, mouse, a, t, w), other, e, u, w), mouse, b, t', w');
  }

  lemma EnteringBreaks<D>(devs: Devices<D>, s: State<D>, mouse: D, a: InputEvent, b: InputEvent,
        t: int, t': int, w: bool, w': bool, works: set<D>)
    requires s.remote && s.active != Some(mouse) && Moves(a) && Moves(b) && !Counts(s, mouse, t)
    ensures Feed(devs, Exec(devs, Feed(devs, s, mouse, a, t, w), GrabAll(works)), mouse, b, t', w').active == s.active
  {
    FirstMove(devs, s, mouse, a, t, w);
    FirstMove(devs, Exec(devs, Feed(devs, s, mouse, a, t, w), GrabAll(works)), mouse, b, t', w');
  }

  // A press of one of the sixteen mouse buttons makes its mouse active at once;
  // nothing but a press or a movement ever does.
  lemma OnlyIntentActivates<D>(devs: Devices<D>, s: State<D>, mouse: D, ev: InputEvent, now: int, works: bool)
    requires s.remote && s.active != Some(mouse)
    ensures var s' := Feed(devs, s, mouse, ev, now, works);
      && (Presses(ev) ==> s'.active == Some(mouse))
      && (s'.active != s.active ==> s'.active == Some(mouse))
      && (s'.active == Some(mouse) ==> Presses(ev) || (ev.typ == 2 && (ev.code == 0 || ev.code == 1) && ev.value != 0))
  {
  }
}
