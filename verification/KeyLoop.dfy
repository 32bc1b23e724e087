/** The keyboard loops as threads, one per keyboard: every stretch between two
    lock operations is a step of its own, and what a loop reads in one step it
    acts on in a later one. */
module KeyLoop {
  import opened Wrappers
  import opened Bytes
  import opened Capture
  import opened Keyboard

  /** Where the loop of one keyboard stands; readAt is the number of Ungrabs that
      had happened when it read the mode and the active keyboard. */
  datatype Pc<D> =
    | Reading                                    // waiting for the next key event
    | Tracked(code: uint16, down: bool, remote: bool, active: Option<D>, readAt: nat)
    | Switching(remote: bool)                    // a Win key was held; about to call Ungrab or Grab
    | Deciding(code: uint16, down: bool, active: Option<D>, readAt: nat)
    | Forwarding(code: uint16, down: bool, active: Option<D>)

  /** What went out: a release by Grab, or a key event forwarded by a loop. */
  datatype Output<D> = Released(code: uint16) | Typed(kbd: D, code: uint16, down: bool)

  /** A history entry: kbd made itself the active keyboard after chosen Ungrabs, on
      a read made after readAt of them. */
  datatype Choice<D> = Choice(kbd: D, readAt: nat, chosen: nat)

  datatype Loop<D> = Loop(core: State<D>, pcs: seq<Pc<D>>, out: seq<Output<D>>, ungrabs: nat, choices: seq<Choice<D>>)

  /** A step of one loop, or one of the other sections of the mutex.  The event is
      the one read, if the loop is reading; order and works are for Grab. */
  datatype Move<D> =
    | KeyStep(t: nat, code: uint16, down: bool, order: seq<uint16>, works: set<D>)
    | OnPointer(section: Section<D>)
    | OnReturn

  function Start<D>(kbds: seq<D>): Loop<D> {
    Loop(Boot(), seq(|kbds|, i => Reading), [], 0, [])
  }

  function Releasing<D>(order: seq<uint16>): (r: seq<Output<D>>)
    ensures |r| == |order| && forall i :: 0 <= i < |r| ==> r[i] == Released(order[i])
  {
    seq(|order|, i requires 0 <= i < |order| => Released(order[i]))
  }

  // The next step of one loop: its new place, and what it does to the rest.
  ghost function Step<D>(devs: Devices<D>, kbds: seq<D>, s: Loop<D>, m: Move<D>): Option<Loop<D>>
    requires m.KeyStep? && m.t < |s.pcs| == |kbds|
  {
    var kbd := kbds[m.t];
    match s.pcs[m.t]
    case Reading =>
      var core := Exec(devs, s.core, Track(m.code, m.down));
      Some(s.(core := core, pcs := s.pcs[m.t := Tracked(m.code, m.down, core.remote, core.activeKbd, s.ungrabs)]))
    case Tracked(code, down, remote, active, readAt) =>
      Some(s.(pcs := s.pcs[m.t :=
        if Shortcut(s.core.pressed, code, down) then Switching(remote)
        else if remote then Deciding(code, down, active, readAt)
        else Reading]))
    case Switching(remote) =>
      if remote then
        Some(s.(core := Exec(devs, s.core, UngrabAll), ungrabs := s.ungrabs + 1, pcs := s.pcs[m.t := Reading]))
      else if Enumerates(m.order, s.core.pressed) then
        Some(s.(core := Exec(devs, s.core, GrabAll(m.works)), out := s.out + Releasing(m.order), pcs := s.pcs[m.t := Reading]))
      else None
    case Deciding(code, down, active, readAt) =>
      if active.None? && down then
        Some(s.(core := Exec(devs, s.core, ChooseKeyboard(kbd)), choices := s.choices + [Choice(kbd, readAt, s.ungrabs)],
                pcs := s.pcs[m.t := Forwarding(code, down, Some(kbd))]))
      else Some(s.(pcs := s.pcs[m.t := Forwarding(code, down, active)]))
    case Forwarding(code, down, active) =>
      Some(s.(out := if active == Some(kbd) then s.out + [Typed(kbd, code, down)] else s.out, pcs := s.pcs[m.t := Reading]))
  }

  ghost function Apply<D>(devs: Devices<D>, kbds: seq<D>, s: Loop<D>, m: Move<D>): Option<Loop<D>>
    requires |s.pcs| == |kbds|
  {
    match m
    case KeyStep(t, _, _, _, _) => if t < |s.pcs| then Step(devs, kbds, s, m) else None
    case OnPointer(section) =>
      if section.MouseEvent? || section.KeyboardButton? then Some(s.(core := Exec(devs, s.core, section))) else None
    case OnReturn => Some(s.(core := Exec(devs, s.core, UngrabAll), ungrabs := s.ungrabs + 1))
  }

  ghost function RunFrom<D>(devs: Devices<D>, kbds: seq<D>, s: Loop<D>, moves: seq<Move<D>>): (r: Option<Loop<D>>)
    requires |s.pcs| == |kbds|
    ensures r.Some? ==> |r.value.pcs| == |kbds|
  {
    if moves == [] then Some(s)
    else
      var before := RunFrom(devs, kbds, s, moves[..|moves| - 1]);
      if before.None? then None else Apply(devs, kbds, before.value, moves[|moves| - 1])
  }

  // Any interleaving of the loops and the other sections is one such run.
  ghost function Interleave<D>(devs: Devices<D>, kbds: seq<D>, moves: seq<Move<D>>): (r: Option<Loop<D>>)
    ensures r.Some? ==> |r.value.pcs| == |kbds|
  {
    RunFrom(devs, kbds, Start(kbds), moves)
  }
}

module KeyLoopProofs {
  import opened Wrappers
  import opened Bytes
  import opened Capture
  import CaptureProofs
  import opened Keyboard
  import opened KeyLoop

  // ---- The active keyboard, at the grain of lock sections --------------------

  // The last choice since the last Ungrab.
  function LastChoice<D>(s: Loop<D>): Option<D> {
    if s.choices != [] && s.choices[|s.choices| - 1].chosen == s.ungrabs then Some(s.choices[|s.choices| - 1].kbd) else None
  }

  // What was read of the mode is still true unless an Ungrab came in between.
  predicate FreshRead<D>(s: Loop<D>, readAt: nat) {
    readAt <= s.ungrabs && (readAt == s.ungrabs ==> s.core.remote)
  }

  predicate FreshPc<D>(s: Loop<D>, pc: Pc<D>) {
    match pc
    case Tracked(_, _, remote, _, readAt) => remote ==> FreshRead(s, readAt)
    case Deciding(_, _, _, readAt) => FreshRead(s, readAt)
    case _ => true
  }

  ghost predicate ChoiceInv<D>(s: Loop<D>) {
    && s.core.activeKbd == LastChoice(s)
    && (forall i :: 0 <= i < |s.choices| ==> s.choices[i].readAt <= s.choices[i].chosen <= s.ungrabs)
    && (forall i :: 0 <= i < |s.choices| && s.choices[i].readAt == s.ungrabs ==> s.core.remote)
    && (forall t :: 0 <= t < |s.pcs| ==> FreshPc(s, s.pcs[t]))
  }

  // Remote mode ends with an Ungrab only.
  lemma RemoteLasts<D>(devs: Devices<D>, kbds: seq<D>, s: Loop<D>, m: Move<D>)
    requires |s.pcs| == |kbds| && Apply(devs, kbds, s, m).Some?
    ensures var s' := Apply(devs, kbds, s, m).value;
      && s.ungrabs <= s'.ungrabs && (s'.ungrabs == s.ungrabs && s.core.remote ==> s'.core.remote)
      && (s'.ungrabs > s.ungrabs ==> s'.core.activeKbd.None? && s'.choices == s.choices)
  {
  }

  lemma FreshStep<D>(devs: Devices<D>, kbds: seq<D>, s: Loop<D>, m: Move<D>)
    requires |s.pcs| == |kbds| && ChoiceInv(s) && Apply(devs, kbds, s, m).Some?
    ensures var s' := Apply(devs, kbds, s, m).value;
      forall t :: 0 <= t < |s'.pcs| ==> FreshPc(s', s'.pcs[t])
  {
    var s' := Apply(devs, kbds, s, m).value;
    RemoteLasts(devs, kbds, s, m);
    assert forall t :: 0 <= t < |s.pcs| ==> FreshPc(s', s.pcs[t]);
    if m.KeyStep? {
      assert forall t :: 0 <= t < |s.pcs| && t != m.t ==> s'.pcs[t] == s.pcs[t];
    }
  }

  lemma ChoiceStep<D>(devs: Devices<D>, kbds: seq<D>, s: Loop<D>, m: Move<D>)
    requires |s.pcs| == |kbds| && ChoiceInv(s) && Apply(devs, kbds, s, m).Some?
    ensures ChoiceInv(Apply(devs, kbds, s, m).value)
  {
    RemoteLasts(devs, kbds, s, m);
    FreshStep(devs, kbds, s, m);
  }

  lemma {:induction false} ChoiceRun<D>(devs: Devices<D>, kbds: seq<D>, moves: seq<Move<D>>)
    requires Interleave(devs, kbds, moves).Some?
    ensures ChoiceInv(Interleave(devs, kbds, moves).value)
  {
    if moves == [] {
    } else {
      var front := moves[..|moves| - 1];
      ChoiceRun(devs, kbds, front);
      ChoiceStep(devs, kbds, Interleave(devs, kbds, front).value, moves[|moves| - 1]);
    }
  }

  // In every interleaving: in local mode there is an active keyboard if and only
  // if one was chosen since the last Ungrab, on a read made before it; and it is
  // the one chosen last.
  lemma LocalKeyboardIff<D>(devs: Devices<D>, kbds: seq<D>, moves: seq<Move<D>>)
    requires Interleave(devs, kbds, moves).Some? && !Interleave(devs, kbds, moves).value.core.remote
    ensures var s := Interleave(devs, kbds, moves).value;
      && (s.core.activeKbd.Some? <==> exists c :: c in s.choices && c.readAt < s.ungrabs == c.chosen)
      && s.core.activeKbd == LastChoice(s)
  {
    ChoiceRun(devs, kbds, moves);
    var s := Interleave(devs, kbds, moves).value;
    ChosenInOrder(devs, kbds, moves);
    if s.core.activeKbd.Some? {
      assert s.choices[|s.choices| - 1] in s.choices;
    }
  }

  // Choices are recorded in the order of the Ungrabs they follow.
  lemma {:induction false} ChosenInOrder<D>(devs: Devices<D>, kbds: seq<D>, moves: seq<Move<D>>)
    requires Interleave(devs, kbds, moves).Some?
    ensures var s := Interleave(devs, kbds, moves).value;
      && (forall i, j :: 0 <= i < j < |s.choices| ==> s.choices[i].chosen <= s.choices[j].chosen)
      && (forall i :: 0 <= i < |s.choices| ==> s.choices[i].chosen <= s.ungrabs)
  {
    if moves == [] {
    } else {
      ChosenInOrder(devs, kbds, moves[..|moves| - 1]);
    }
  }

  // ---- What a late choice does to the next session ---------------------------

  // No loop but the active keyboard's can still become active or forward.
  predicate Barred<D(==)>(kbds: seq<D>, s: Loop<D>, kbd: D)
    requires |s.pcs| == |kbds|
  {
    && s.core.activeKbd == Some(kbd)
    && forall t :: 0 <= t < |s.pcs| && kbds[t] != kbd ==> BarredPc(s.pcs[t], kbds[t])
  }

  predicate BarredPc<D(==)>(pc: Pc<D>, own: D) {
    match pc
    case Tracked(_, down, remote, active, _) => remote ==> active != Some(own) && (active.None? ==> !down)
    case Deciding(_, down, active, _) => active != Some(own) && (active.None? ==> !down)
    case Forwarding(_, _, active) => active != Some(own)
    case _ => true
  }

  ghost predicate TypedOnlyBy<D>(out: seq<Output<D>>, from: nat, kbd: D) {
    forall i :: from <= i < |out| && out[i].Typed? ==> out[i].kbd == kbd
  }

  lemma BarredStep<D>(devs: Devices<D>, kbds: seq<D>, s: Loop<D>, m: Move<D>, kbd: D)
    requires |s.pcs| == |kbds| && Barred(kbds, s, kbd) && Apply(devs, kbds, s, m).Some?
    ensures var s' := Apply(devs, kbds, s, m).value;
      && s.out <= s'.out && s.ungrabs <= s'.ungrabs
      && (s'.ungrabs == s.ungrabs ==> Barred(kbds, s', kbd) && TypedOnlyBy(s'.out, |s.out|, kbd))
  {
    var s' := Apply(devs, kbds, s, m).value;
    if m.KeyStep? {
      assert forall t :: 0 <= t < |s.pcs| && t != m.t ==> s'.pcs[t] == s.pcs[t];
    }
  }

  // Grab does not forget the active keyboard.  So once it is set and every other
  // loop has moved past its last chance, nothing but its own events is forwarded
  // until the next Ungrab, however remote mode is entered and whatever is typed.
  lemma {:induction false} OthersShutOut<D>(devs: Devices<D>, kbds: seq<D>, s: Loop<D>, moves: seq<Move<D>>, kbd: D)
    requires |s.pcs| == |kbds| && Barred(kbds, s, kbd) && RunFrom(devs, kbds, s, moves).Some?
    ensures var s' := RunFrom(devs, kbds, s, moves).value;
      && s.out <= s'.out && s.ungrabs <= s'.ungrabs
      && (s'.ungrabs == s.ungrabs ==> Barred(kbds, s', kbd) && TypedOnlyBy(s'.out, |s.out|, kbd))
    decreases |moves|
  {
    if moves == [] {
    } else {
      var front := moves[..|moves| - 1];
      var before := RunFrom(devs, kbds, s, front).value;
      OthersShutOut(devs, kbds, s, front, kbd);
      if before.ungrabs == s.ungrabs {
        BarredStep(devs, kbds, before, moves[|moves| - 1], kbd);
      } else {
        UngrabsGrow(devs, kbds, before, moves[|moves| - 1]);
      }
    }
  }

  lemma UngrabsGrow<D>(devs: Devices<D>, kbds: seq<D>, s: Loop<D>, m: Move<D>)
    requires |s.pcs| == |kbds| && Apply(devs, kbds, s, m).Some?
    ensures var s' := Apply(devs, kbds, s, m).value; s.out <= s'.out && s.ungrabs <= s'.ungrabs
  {
  }

  // ---- Who types in a session ------------------------------------------------

  // Every loop waits for an event, and no keyboard is active.
  predicate Quiet<D>(s: Loop<D>) {
    s.core.activeKbd.None? && forall t :: 0 <= t < |s.pcs| ==> s.pcs[t].Reading?
  }

  ghost predicate ChoseSince<D>(s: Loop<D>, from: nat, kbd: D) {
    exists i :: from <= i < |s.choices| && s.choices[i].kbd == kbd
  }

  ghost predicate TypedSince<D>(s: Loop<D>, from: nat, kbd: D) {
    exists i :: from <= i < |s.out| && s.out[i].Typed? && s.out[i].kbd == kbd
  }

  predicate AboutToType<D(==)>(kbds: seq<D>, s: Loop<D>, kbd: D)
    requires |s.pcs| == |kbds|
  {
    exists t :: 0 <= t < |s.pcs| && kbds[t] == kbd && s.pcs[t].Forwarding? && s.pcs[t].active == Some(kbd)
  }

  function ActiveIn<D>(pc: Pc<D>): Option<D> {
    match pc
    case Tracked(_, _, _, active, _) => active
    case Deciding(_, _, active, _) => active
    case Forwarding(_, _, active) => active
    case _ => None
  }

  ghost predicate TypistInv<D>(kbds: seq<D>, s0: Loop<D>, s: Loop<D>)
    requires |s.pcs| == |kbds|
  {
    && |s0.out| <= |s.out| && |s0.choices| <= |s.choices|
    && (s.core.activeKbd.Some? ==> ChoseSince(s, |s0.choices|, s.core.activeKbd.value))
    && (forall t :: 0 <= t < |s.pcs| && ActiveIn(s.pcs[t]).Some? ==> ChoseSince(s, |s0.choices|, ActiveIn(s.pcs[t]).value))
    && (forall i :: |s0.out| <= i < |s.out| && s.out[i].Typed? ==> ChoseSince(s, |s0.choices|, s.out[i].kbd))
    && (forall i :: |s0.choices| <= i < |s.choices| ==>
          TypedSince(s, |s0.out|, s.choices[i].kbd) || AboutToType(kbds, s, s.choices[i].kbd))
  }

  lemma StillChose<D>(s: Loop<D>, s': Loop<D>, from: nat, kbd: D)
    requires s.choices <= s'.choices && ChoseSince(s, from, kbd)
    ensures ChoseSince(s', from, kbd)
  {
    var i :| from <= i < |s.choices| && s.choices[i].kbd == kbd;
    assert s'.choices[i].kbd == kbd;
  }

  lemma StillTyped<D>(s: Loop<D>, s': Loop<D>, from: nat, kbd: D)
    requires s.out <= s'.out && TypedSince(s, from, kbd)
    ensures TypedSince(s', from, kbd)
  {
    var i :| from <= i < |s.out| && s.out[i].Typed? && s.out[i].kbd == kbd;
    assert s'.out[i].Typed? && s'.out[i].kbd == kbd;
  }

  // What one move does to the histories and to its own loop.
  lemma MoveParts<D>(devs: Devices<D>, kbds: seq<D>, s: Loop<D>, m: Move<D>)
    requires |s.pcs| == |kbds| && Apply(devs, kbds, s, m).Some?
    ensures var s' := Apply(devs, kbds, s, m).value;
      && s.out <= s'.out && s.choices <= s'.choices && |s'.pcs| == |s.pcs|
      && (!m.KeyStep? ==> s'.pcs == s.pcs && s'.out == s.out && s'.choices == s.choices)
      && (s'.core.activeKbd == s.core.activeKbd || s'.core.activeKbd.None? || (m.KeyStep? && s'.core.activeKbd == Some(kbds[m.t])
            && |s'.choices| == |s.choices| + 1 && s'.choices[|s.choices|].kbd == kbds[m.t]))
      && (m.KeyStep? ==>
            var pc, pc', own := s.pcs[m.t], s'.pcs[m.t], kbds[m.t];
            && (forall t :: 0 <= t < |s.pcs| && t != m.t ==> s'.pcs[t] == s.pcs[t])
            && (ActiveIn(pc').None? || ActiveIn(pc') == ActiveIn(pc) || ActiveIn(pc') == s.core.activeKbd
                || (ActiveIn(pc') == Some(own) && |s'.choices| > |s.choices| && s'.choices[|s.choices|].kbd == own))
            && |s'.choices| <= |s.choices| + 1
            && (|s'.choices| > |s.choices| ==> s'.choices[|s.choices|].kbd == own && pc'.Forwarding? && pc'.active == Some(own))
            && (forall i :: |s.out| <= i < |s'.out| && s'.out[i].Typed? ==> s'.out[i].kbd == own && ActiveIn(pc) == Some(own))
            && (pc.Forwarding? && pc.active == Some(own) ==> |s'.out| > |s.out| && s'.out[|s.out|].Typed? && s'.out[|s.out|].kbd == own))
  {
  }

  lemma TypistsChose<D>(devs: Devices<D>, kbds: seq<D>, s0: Loop<D>, s: Loop<D>, m: Move<D>)
    requires |s.pcs| == |kbds| && TypistInv(kbds, s0, s) && Apply(devs, kbds, s, m).Some?
    ensures var s' := Apply(devs, kbds, s, m).value;
      && (s'.core.activeKbd.Some? ==> ChoseSince(s', |s0.choices|, s'.core.activeKbd.value))
      && (forall t :: 0 <= t < |s'.pcs| && ActiveIn(s'.pcs[t]).Some? ==> ChoseSince(s', |s0.choices|, ActiveIn(s'.pcs[t]).value))
      && (forall i :: |s0.out| <= i < |s'.out| && s'.out[i].Typed? ==> ChoseSince(s', |s0.choices|, s'.out[i].kbd))
  {
    var s' := Apply(devs, kbds, s, m).value;
    MoveParts(devs, kbds, s, m);
    forall kbd | ChoseSince(s, |s0.choices|, kbd)
      ensures ChoseSince(s', |s0.choices|, kbd)
    {
      StillChose(s, s', |s0.choices|, kbd);
    }
    if m.KeyStep? && |s'.choices| > |s.choices| {
      assert ChoseSince(s', |s0.choices|, kbds[m.t]);
    }
    forall i | |s0.out| <= i < |s'.out| && s'.out[i].Typed?
      ensures ChoseSince(s', |s0.choices|, s'.out[i].kbd)
    {
      assert i < |s.out| ==> s'.out[i] == s.out[i];
    }
  }

  lemma ChoosersType<D>(devs: Devices<D>, kbds: seq<D>, s0: Loop<D>, s: Loop<D>, m: Move<D>, i: nat)
    requires |s.pcs| == |kbds| && TypistInv(kbds, s0, s) && Apply(devs, kbds, s, m).Some?
    requires |s0.choices| <= i < |Apply(devs, kbds, s, m).value.choices|
    ensures var s' := Apply(devs, kbds, s, m).value;
      TypedSince(s', |s0.out|, s'.choices[i].kbd) || AboutToType(kbds, s', s'.choices[i].kbd)
  {
    var s' := Apply(devs, kbds, s, m).value;
    MoveParts(devs, kbds, s, m);
    var kbd := s'.choices[i].kbd;
    if i < |s.choices| {
      assert s.choices[i].kbd == kbd;
      if TypedSince(s, |s0.out|, kbd) {
        StillTyped(s, s', |s0.out|, kbd);
      } else {
        var t :| 0 <= t < |s.pcs| && kbds[t] == kbd && s.pcs[t].Forwarding? && s.pcs[t].active == Some(kbd);
        if m.KeyStep? && m.t == t {
          assert s'.out[|s.out|].Typed? && s'.out[|s.out|].kbd == kbd;
        } else {
          assert s'.pcs[t] == s.pcs[t];
        }
      }
    }
  }

  lemma {:induction false} TypistRun<D>(devs: Devices<D>, kbds: seq<D>, s0: Loop<D>, moves: seq<Move<D>>)
    requires |s0.pcs| == |kbds| && Quiet(s0) && RunFrom(devs, kbds, s0, moves).Some?
    ensures TypistInv(kbds, s0, RunFrom(devs, kbds, s0, moves).value)
  {
    if moves == [] {
    } else {
      var s := RunFrom(devs, kbds, s0, moves[..|moves| - 1]).value;
      var m := moves[|moves| - 1];
      TypistRun(devs, kbds, s0, moves[..|moves| - 1]);
      TypistsChose(devs, kbds, s0, s, m);
      MoveParts(devs, kbds, s, m);
      var s' := Apply(devs, kbds, s, m).value;
      forall i | |s0.choices| <= i < |s'.choices|
        ensures TypedSince(s', |s0.out|, s'.choices[i].kbd) || AboutToType(kbds, s', s'.choices[i].kbd)
      {
        ChoosersType(devs, kbds, s0, s, m, i);
      }
    }
  }

  ghost predicate OneTypist<D>(s: Loop<D>, from: nat) {
    forall i, j :: from <= i < |s.out| && from <= j < |s.out| && s.out[i].Typed? && s.out[j].Typed? ==> s.out[i].kbd == s.out[j].kbd
  }

  // From a quiet moment on, in every interleaving, the keyboards whose events
  // were forwarded are exactly those that made themselves the active one, but
  // for a first event still on its way out.
  lemma TypistsAreChoosers<D>(devs: Devices<D>, kbds: seq<D>, s0: Loop<D>, moves: seq<Move<D>>, kbd: D)
    requires |s0.pcs| == |kbds| && Quiet(s0) && RunFrom(devs, kbds, s0, moves).Some?
    ensures var s := RunFrom(devs, kbds, s0, moves).value;
      && (TypedSince(s, |s0.out|, kbd) ==> ChoseSince(s, |s0.choices|, kbd))
      && (ChoseSince(s, |s0.choices|, kbd) ==> TypedSince(s, |s0.out|, kbd) || AboutToType(kbds, s, kbd))
  {
    TypistRun(devs, kbds, s0, moves);
  }

  // ---- When a second keyboard can type -----------------------------------------

  // This step reads a key press in remote mode before any keyboard was chosen.
  predicate EarlyPress<D>(s0: Loop<D>, s: Loop<D>, m: Move<D>) {
    && m.KeyStep? && m.t < |s.pcs| && s.pcs[m.t].Reading? && m.down && s.core.remote
    && |s.choices| == |s0.choices|
  }

  // The keyboards of the steps of a run that do so.
  ghost function EarlyPresses<D>(devs: Devices<D>, kbds: seq<D>, s0: Loop<D>, moves: seq<Move<D>>): seq<D>
    requires |s0.pcs| == |kbds| && RunFrom(devs, kbds, s0, moves).Some?
  {
    if moves == [] then []
    else
      var front, m := moves[..|moves| - 1], moves[|moves| - 1];
      EarlyPresses(devs, kbds, s0, front)
      + if EarlyPress(s0, RunFrom(devs, kbds, s0, front).value, m) then [kbds[m.t]] else []
  }

  // The loop has read such a press and not yet acted on it.
  predicate Claiming<D>(pc: Pc<D>) {
    match pc
    case Tracked(_, down, remote, active, _) => remote && down && active.None?
    case Deciding(_, down, active, _) => down && active.None?
    case _ => false
  }

  ghost predicate IsClaiming<D>(kbds: seq<D>, s: Loop<D>, kbd: D)
    requires |s.pcs| == |kbds|
  {
    exists t :: 0 <= t < |s.pcs| && kbds[t] == kbd && (Claiming(s.pcs[t]) || s.pcs[t] == Switching(true))
  }

  ghost predicate ClaimInv<D>(kbds: seq<D>, s0: Loop<D>, s: Loop<D>, early: seq<D>)
    requires |s.pcs| == |kbds|
  {
    && |s0.choices| <= |s.choices|
    && (s.core.activeKbd.None? <==> |s.choices| == |s0.choices|)
    && (forall i :: |s0.choices| <= i < |s.choices| ==> s.choices[i].kbd in early)
    && (forall t :: 0 <= t < |s.pcs| && Claiming(s.pcs[t]) ==> kbds[t] in early)
    && (forall i :: 0 <= i < |early| ==> ChoseSince(s, |s0.choices|, early[i]) || IsClaiming(kbds, s, early[i]))
  }

  // Without an Ungrab, what one step does to claims and choices.
  lemma ClaimParts<D>(devs: Devices<D>, kbds: seq<D>, s0: Loop<D>, s: Loop<D>, m: Move<D>)
    requires |s.pcs| == |kbds| && Apply(devs, kbds, s, m).Some?
    requires s.core.activeKbd.None? <==> |s.choices| == |s0.choices|
    requires Apply(devs, kbds, s, m).value.ungrabs == s.ungrabs && |s0.choices| <= |s.choices|
    ensures var s' := Apply(devs, kbds, s, m).value;
      && (s'.core.activeKbd.None? <==> |s'.choices| == |s0.choices|)
      && (m.KeyStep? ==>
            var pc, pc', own := s.pcs[m.t], s'.pcs[m.t], kbds[m.t];
            && (if pc.Deciding? && Claiming(pc) then |s'.choices| == |s.choices| + 1 && s'.choices[|s.choices|].kbd == own
                else s'.choices == s.choices)
            && (Claiming(pc') ==> Claiming(pc) || EarlyPress(s0, s, m))
            && (EarlyPress(s0, s, m) ==> Claiming(pc'))
            && (pc.Tracked? && Claiming(pc) ==> Claiming(pc') || pc' == Switching(true))
            && pc != Switching(true))
      && (!m.KeyStep? ==> s'.choices == s.choices && s'.pcs == s.pcs)
  {
  }

  lemma ClaimsSettle<D>(devs: Devices<D>, kbds: seq<D>, s0: Loop<D>, s: Loop<D>, m: Move<D>, early: seq<D>, kbd: D)
    requires |s.pcs| == |kbds| && Apply(devs, kbds, s, m).Some? && ClaimInv(kbds, s0, s, early)
    requires Apply(devs, kbds, s, m).value.ungrabs == s.ungrabs
    requires ChoseSince(s, |s0.choices|, kbd) || IsClaiming(kbds, s, kbd) || (EarlyPress(s0, s, m) && kbds[m.t] == kbd)
    ensures var s' := Apply(devs, kbds, s, m).value;
      ChoseSince(s', |s0.choices|, kbd) || IsClaiming(kbds, s', kbd)
  {
    var s' := Apply(devs, kbds, s, m).value;
    ClaimParts(devs, kbds, s0, s, m);
    MoveParts(devs, kbds, s, m);
    if ChoseSince(s, |s0.choices|, kbd) {
      StillChose(s, s', |s0.choices|, kbd);
    } else if IsClaiming(kbds, s, kbd) {
      var t :| 0 <= t < |s.pcs| && kbds[t] == kbd && (Claiming(s.pcs[t]) || s.pcs[t] == Switching(true));
      if m.KeyStep? && m.t == t {
        if s.pcs[t].Deciding? {
          assert s'.choices[|s.choices|].kbd == kbd;
        }
      } else {
        assert s'.pcs[t] == s.pcs[t];
      }
    }
  }

  lemma ClaimStep<D>(devs: Devices<D>, kbds: seq<D>, s0: Loop<D>, s: Loop<D>, m: Move<D>, early: seq<D>, now: seq<D>)
    requires |s.pcs| == |kbds| && Apply(devs, kbds, s, m).Some? && ClaimInv(kbds, s0, s, early)
    requires Apply(devs, kbds, s, m).value.ungrabs == s.ungrabs
    requires now == early + if EarlyPress(s0, s, m) then [kbds[m.t]] else []
    ensures ClaimInv(kbds, s0, Apply(devs, kbds, s, m).value, now)
  {
    var s' := Apply(devs, kbds, s, m).value;
    ClaimParts(devs, kbds, s0, s, m);
    MoveParts(devs, kbds, s, m);
    forall i | 0 <= i < |now|
      ensures ChoseSince(s', |s0.choices|, now[i]) || IsClaiming(kbds, s', now[i])
    {
      assert i < |early| ==> now[i] == early[i];
      ClaimsSettle(devs, kbds, s0, s, m, early, now[i]);
    }
    forall t | 0 <= t < |s'.pcs| && Claiming(s'.pcs[t])
      ensures kbds[t] in now
    {
      if m.KeyStep? && t == m.t && EarlyPress(s0, s, m) {
        assert now[|early|] == kbds[t];
      }
    }
    assert forall k :: k in early ==> k in now;
  }

  lemma {:induction false} ClaimRun<D>(devs: Devices<D>, kbds: seq<D>, s0: Loop<D>, moves: seq<Move<D>>)
    requires |s0.pcs| == |kbds| && Quiet(s0) && RunFrom(devs, kbds, s0, moves).Some?
    ensures s0.ungrabs <= RunFrom(devs, kbds, s0, moves).value.ungrabs
    ensures var s := RunFrom(devs, kbds, s0, moves).value;
      s.ungrabs == s0.ungrabs ==> ClaimInv(kbds, s0, s, EarlyPresses(devs, kbds, s0, moves))
    decreases |moves|
  {
    if moves == [] {
    } else {
      var front, m := moves[..|moves| - 1], moves[|moves| - 1];
      var s := RunFrom(devs, kbds, s0, front).value;
      ClaimRun(devs, kbds, s0, front);
      UngrabsGrow(devs, kbds, s, m);
      if Apply(devs, kbds, s, m).value.ungrabs == s0.ungrabs {
        ClaimStep(devs, kbds, s0, s, m, EarlyPresses(devs, kbds, s0, front), EarlyPresses(devs, kbds, s0, moves));
      }
    }
  }

  ghost predicate AllSame<D>(ks: seq<D>) {
    forall i, j :: 0 <= i < |ks| && 0 <= j < |ks| ==> ks[i] == ks[j]
  }

  // From a quiet moment on and without an Ungrab, once no choice is pending: what
  // was typed is one keyboard's if and only if no second keyboard's press was
  // read in remote mode before the first choice was made.
  lemma OneTypistIff<D>(devs: Devices<D>, kbds: seq<D>, s0: Loop<D>, moves: seq<Move<D>>)
    requires |s0.pcs| == |kbds| && Quiet(s0) && RunFrom(devs, kbds, s0, moves).Some?
    requires var s := RunFrom(devs, kbds, s0, moves).value;
      && s.ungrabs == s0.ungrabs
      && forall t :: 0 <= t < |kbds| ==> !Claiming(s.pcs[t]) && !s.pcs[t].Forwarding? && s.pcs[t] != Switching(true)
    ensures OneTypist(RunFrom(devs, kbds, s0, moves).value, |s0.out|) <==> AllSame(EarlyPresses(devs, kbds, s0, moves))
  {
    var s, early := RunFrom(devs, kbds, s0, moves).value, EarlyPresses(devs, kbds, s0, moves);
    TypistRun(devs, kbds, s0, moves);
    ClaimRun(devs, kbds, s0, moves);
    if OneTypist(s, |s0.out|) {
      forall i, j | 0 <= i < |early| && 0 <= j < |early|
        ensures early[i] == early[j]
      {
        EarlyTypes(kbds, s0, s, early, i);
        EarlyTypes(kbds, s0, s, early, j);
      }
    }
    if AllSame(early) {
      forall i, j | |s0.out| <= i < |s.out| && |s0.out| <= j < |s.out| && s.out[i].Typed? && s.out[j].Typed?
        ensures s.out[i].kbd == s.out[j].kbd
      {
        TypedWasEarly(kbds, s0, s, early, i);
        TypedWasEarly(kbds, s0, s, early, j);
      }
    }
  }

  lemma EarlyTypes<D>(kbds: seq<D>, s0: Loop<D>, s: Loop<D>, early: seq<D>, i: nat)
    requires |s.pcs| == |kbds| && TypistInv(kbds, s0, s) && ClaimInv(kbds, s0, s, early) && i < |early|
    requires forall t :: 0 <= t < |kbds| ==> !Claiming(s.pcs[t]) && !s.pcs[t].Forwarding? && s.pcs[t] != Switching(true)
    ensures TypedSince(s, |s0.out|, early[i])
  {
    assert ChoseSince(s, |s0.choices|, early[i]);
    var j :| |s0.choices| <= j < |s.choices| && s.choices[j].kbd == early[i];
  }

  lemma TypedWasEarly<D>(kbds: seq<D>, s0: Loop<D>, s: Loop<D>, early: seq<D>, i: nat)
    requires |s.pcs| == |kbds| && TypistInv(kbds, s0, s) && ClaimInv(kbds, s0, s, early)
    requires |s0.out| <= i < |s.out| && s.out[i].Typed?
    ensures s.out[i].kbd in early
  {
    assert ChoseSince(s, |s0.choices|, s.out[i].kbd);
    var j :| |s0.choices| <= j < |s.choices| && s.choices[j].kbd == s.out[i].kbd;
  }

  // ---- Whole events ----------------------------------------------------------

  // The state after n moves that are the same.
  ghost function Times<D>(devs: Devices<D>, kbds: seq<D>, s: Loop<D>, m: Move<D>, n: nat): (r: Option<Loop<D>>)
    requires |s.pcs| == |kbds|
    ensures r.Some? ==> |r.value.pcs| == |kbds|
    decreases n
  {
    if n == 0 then Some(s)
    else
      var next := Apply(devs, kbds, s, m);
      if next.None? then None else Times(devs, kbds, next.value, m, n - 1)
  }

  ghost predicate Leads<D>(devs: Devices<D>, kbds: seq<D>, s: Loop<D>, m: Move<D>, s': Loop<D>) {
    |s.pcs| == |kbds| == |s'.pcs| && Apply(devs, kbds, s, m) == Some(s')
  }

  lemma TimesMore<D>(devs: Devices<D>, kbds: seq<D>, s: Loop<D>, m: Move<D>, s': Loop<D>, n: nat, last: Loop<D>)
    requires Leads(devs, kbds, s, m, s') && Times(devs, kbds, s', m, n) == Some(last)
    ensures Times(devs, kbds, s, m, n + 1) == Some(last)
  {
  }

  // The steps of one loop, one by one.
  lemma Reads<D>(devs: Devices<D>, kbds: seq<D>, s: Loop<D>, m: Move<D>, core: State<D>)
    requires |s.pcs| == |kbds| && m.KeyStep? && m.t < |kbds| && s.pcs[m.t].Reading?
    requires core == Exec(devs, s.core, Track(m.code, m.down))
    ensures Leads(devs, kbds, s, m,
      s.(core := core, pcs := s.pcs[m.t := Tracked(m.code, m.down, core.remote, core.activeKbd, s.ungrabs)]))
  {
  }

  lemma Decides<D>(devs: Devices<D>, kbds: seq<D>, s: Loop<D>, m: Move<D>)
    requires |s.pcs| == |kbds| && m.KeyStep? && m.t < |kbds| && s.pcs[m.t].Tracked?
    ensures var pc := s.pcs[m.t];
      var pc' := if Shortcut(s.core.pressed, pc.code, pc.down) then Switching(pc.remote)
                 else if pc.remote then Deciding(pc.code, pc.down, pc.active, pc.readAt) else Reading;
      Leads(devs, kbds, s, m, s.(pcs := s.pcs[m.t := pc']))
  {
  }

  lemma Switches<D>(devs: Devices<D>, kbds: seq<D>, s: Loop<D>, m: Move<D>, remote: bool)
    requires |s.pcs| == |kbds| && m.KeyStep? && m.t < |kbds| && s.pcs[m.t] == Switching(remote)
    requires !remote ==> Enumerates(m.order, s.core.pressed)
    ensures Leads(devs, kbds, s, m,
      if remote then s.(core := Exec(devs, s.core, UngrabAll), ungrabs := s.ungrabs + 1, pcs := s.pcs[m.t := Reading])
      else s.(core := Exec(devs, s.core, GrabAll(m.works)), out := s.out + Releasing(m.order), pcs := s.pcs[m.t := Reading]))
  {
  }

  lemma Chooses<D>(devs: Devices<D>, kbds: seq<D>, s: Loop<D>, m: Move<D>, pc: Pc<D>)
    requires |s.pcs| == |kbds| && m.KeyStep? && m.t < |kbds| && s.pcs[m.t] == pc && pc.Deciding?
    ensures var chooses := pc.active.None? && pc.down;
      Leads(devs, kbds, s, m,
        s.(core := if chooses then Exec(devs, s.core, ChooseKeyboard(kbds[m.t])) else s.core,
           choices := if chooses then s.choices + [Choice(kbds[m.t], pc.readAt, s.ungrabs)] else s.choices,
           pcs := s.pcs[m.t := Forwarding(pc.code, pc.down, if chooses then Some(kbds[m.t]) else pc.active)]))
  {
  }

  lemma Forwards<D>(devs: Devices<D>, kbds: seq<D>, s: Loop<D>, m: Move<D>, pc: Pc<D>)
    requires |s.pcs| == |kbds| && m.KeyStep? && m.t < |kbds| && s.pcs[m.t] == pc && pc.Forwarding?
    ensures Leads(devs, kbds, s, m,
      s.(out := if pc.active == Some(kbds[m.t]) then s.out + [Typed(kbds[m.t], pc.code, pc.down)] else s.out,
         pcs := s.pcs[m.t := Reading]))
  {
  }

  lemma SetTwice<T>(xs: seq<T>, x: T, y: T, t: nat)
    requires t < |xs|
    ensures xs[t := x][t := y] == xs[t := y]
    ensures xs[t := xs[t]] == xs
  {
  }

  // What the loop writes for a whole event.
  function Written<D>(remote: bool, kbd: D, out: seq<Forward>): (r: seq<Output<D>>)
    ensures |r| == |out|
    ensures forall i :: 0 <= i < |r| ==> r[i] == if remote then Typed(kbd, out[i].code, out[i].down) else Released(out[i].code)
  {
    seq(|out|, i requires 0 <= i < |out| => if remote then Typed(kbd, out[i].code, out[i].down) else Released(out[i].code))
  }

  lemma NothingWritten<D>(remote: bool, kbd: D, out: seq<Output<D>>)
    ensures out + Written(remote, kbd, []) == out
  {
  }

  lemma ReleasesWritten<D>(kbd: D, order: seq<uint16>)
    ensures Written(false, kbd, Releases(order)) == Releasing(order)
  {
  }

  lemma OneWritten<D>(kbd: D, code: uint16, down: bool, sent: bool, out: seq<Output<D>>)
    ensures out + Written(true, kbd, if sent then [Forward(code, down)] else [])
      == if sent then out + [Typed(kbd, code, down)] else out
  {
    assert Written(true, kbd, [Forward(code, down)]) == [Typed(kbd, code, down)];
    NothingWritten(true, kbd, out);
  }

  // After n steps the loop has taken its event to the end, as OnKey does.
  ghost predicate Handled<D>(devs: Devices<D>, kbds: seq<D>, s: Loop<D>, m: Move<D>, n: nat)
    requires |s.pcs| == |kbds| && m.KeyStep? && m.t < |kbds|
  {
    var r := Times(devs, kbds, s, m, n);
    var (core, out) := OnKey(devs, s.core, kbds[m.t], m.code, m.down, m.order, m.works);
    && r.Some? && r.value.core == core && r.value.pcs == s.pcs
    && r.value.out == s.out + Written(s.core.remote, kbds[m.t], out)
  }

  // From the tracking on: a shortcut.
  lemma ShortcutTaken<D>(devs: Devices<D>, kbds: seq<D>, s: Loop<D>, m: Move<D>, pc: Pc<D>)
    requires |s.pcs| == |kbds| && m.KeyStep? && m.t < |kbds| && s.pcs[m.t] == pc && pc.Tracked?
    requires Shortcut(s.core.pressed, pc.code, pc.down) && Enumerates(m.order, s.core.pressed)
    ensures var r := Times(devs, kbds, s, m, 2);
      && r.Some? && r.value.pcs == s.pcs[m.t := Reading]
      && r.value.core == Exec(devs, s.core, if pc.remote then UngrabAll else GrabAll(m.works))
      && r.value.out == if pc.remote then s.out else s.out + Releasing(m.order)
  {
    Decides(devs, kbds, s, m);
    var s1 := s.(pcs := s.pcs[m.t := Switching(pc.remote)]);
    Switches(devs, kbds, s1, m, pc.remote);
    SetTwice(s.pcs, Switching(pc.remote), Reading, m.t);
    var s2 := Apply(devs, kbds, s1, m).value;
    TimesMore(devs, kbds, s1, m, s2, 0, s2);
    TimesMore(devs, kbds, s, m, s1, 1, s2);
  }

  // From the tracking on: any other key in remote mode.
  lemma KeyTaken<D>(devs: Devices<D>, kbds: seq<D>, s: Loop<D>, m: Move<D>, pc: Pc<D>, after: State<D>)
    requires |s.pcs| == |kbds| && m.KeyStep? && m.t < |kbds| && s.pcs[m.t] == pc && pc.Tracked?
    requires !Shortcut(s.core.pressed, pc.code, pc.down) && pc.remote && pc.active == s.core.activeKbd
    requires after == if s.core.activeKbd.None? && pc.down then Exec(devs, s.core, ChooseKeyboard(kbds[m.t])) else s.core
    ensures var r := Times(devs, kbds, s, m, 3);
      && r.Some? && r.value.pcs == s.pcs[m.t := Reading] && r.value.core == after
      && r.value.out == if after.activeKbd == Some(kbds[m.t]) then s.out + [Typed(kbds[m.t], pc.code, pc.down)] else s.out
  {
    var kbd := kbds[m.t];
    var pc1 := Deciding(pc.code, pc.down, pc.active, pc.readAt);
    var pc2 := Forwarding(pc.code, pc.down, if pc.active.None? && pc.down then Some(kbd) else pc.active);
    Decides(devs, kbds, s, m);
    var s1 := s.(pcs := s.pcs[m.t := pc1]);
    Chooses(devs, kbds, s1, m, pc1);
    SetTwice(s.pcs, pc1, pc2, m.t);
    var s2 := Apply(devs, kbds, s1, m).value;
    Forwards(devs, kbds, s2, m, pc2);
    SetTwice(s.pcs, pc2, Reading, m.t);
    var s3 := Apply(devs, kbds, s2, m).value;
    TimesMore(devs, kbds, s2, m, s3, 0, s3);
    TimesMore(devs, kbds, s1, m, s2, 1, s3);
    TimesMore(devs, kbds, s, m, s1, 2, s3);
  }

  // Whole-event handling of a key that is forwarded, or would be on the active keyboard.
  lemma OnKeyForwards<D>(devs: Devices<D>, core: State<D>, tracked: State<D>, m: Move<D>, kbd: D)
    requires m.KeyStep? && core.remote && tracked == Exec(devs, core, Track(m.code, m.down))
    requires !Shortcut(tracked.pressed, m.code, m.down)
    ensures var after := if tracked.activeKbd.None? && m.down then Exec(devs, tracked, ChooseKeyboard(kbd)) else tracked;
      OnKey(devs, core, kbd, m.code, m.down, m.order, m.works)
      == (after, if after.activeKbd == Some(kbd) then [Forward(m.code, m.down)] else [])
  {
  }

  lemma KeyIsHandled<D>(devs: Devices<D>, kbds: seq<D>, s: Loop<D>, m: Move<D>, s1: Loop<D>)
    requires Leads(devs, kbds, s, m, s1) && m.KeyStep? && m.t < |kbds| && s.pcs[m.t].Reading?
    requires s1 == s.(core := Exec(devs, s.core, Track(m.code, m.down)), pcs := s.pcs[m.t := s1.pcs[m.t]])
    requires s1.pcs[m.t] == Tracked(m.code, m.down, true, s1.core.activeKbd, s.ungrabs)
    requires !Shortcut(s1.core.pressed, m.code, m.down) && s.core.remote
    ensures Handled(devs, kbds, s, m, 4)
  {
    var kbd := kbds[m.t];
    var after := if s1.core.activeKbd.None? && m.down then Exec(devs, s1.core, ChooseKeyboard(kbd)) else s1.core;
    KeyTaken(devs, kbds, s1, m, s1.pcs[m.t], after);
    TimesMore(devs, kbds, s, m, s1, 3, Times(devs, kbds, s1, m, 3).value);
    SetTwice(s.pcs, s1.pcs[m.t], Reading, m.t);
    OnKeyForwards(devs, s.core, s1.core, m, kbd);
    OneWritten(kbd, m.code, m.down, after.activeKbd == Some(kbd), s.out);
  }

  lemma ShortcutIsHandled<D>(devs: Devices<D>, kbds: seq<D>, s: Loop<D>, m: Move<D>, s1: Loop<D>)
    requires Leads(devs, kbds, s, m, s1) && m.KeyStep? && m.t < |kbds| && s.pcs[m.t].Reading?
    requires s1 == s.(core := Exec(devs, s.core, Track(m.code, m.down)), pcs := s.pcs[m.t := s1.pcs[m.t]])
    requires s1.pcs[m.t] == Tracked(m.code, m.down, s.core.remote, s1.core.activeKbd, s.ungrabs)
    requires Shortcut(s1.core.pressed, m.code, m.down) && Enumerates(m.order, s1.core.pressed)
    ensures Handled(devs, kbds, s, m, 3)
  {
    ShortcutTaken(devs, kbds, s1, m, s1.pcs[m.t]);
    TimesMore(devs, kbds, s, m, s1, 2, Times(devs, kbds, s1, m, 2).value);
    SetTwice(s.pcs, s1.pcs[m.t], Reading, m.t);
    ReleasesWritten(kbds[m.t], m.order);
    NothingWritten(true, kbds[m.t], s.out);
  }

  lemma LocalIsHandled<D>(devs: Devices<D>, kbds: seq<D>, s: Loop<D>, m: Move<D>, s1: Loop<D>)
    requires Leads(devs, kbds, s, m, s1) && m.KeyStep? && m.t < |kbds| && s.pcs[m.t].Reading?
    requires s1 == s.(core := Exec(devs, s.core, Track(m.code, m.down)), pcs := s.pcs[m.t := s1.pcs[m.t]])
    requires s1.pcs[m.t] == Tracked(m.code, m.down, false, s1.core.activeKbd, s.ungrabs)
    requires !Shortcut(s1.core.pressed, m.code, m.down) && !s.core.remote
    ensures Handled(devs, kbds, s, m, 2)
  {
    Decides(devs, kbds, s1, m);
    var s2 := s1.(pcs := s1.pcs[m.t := Reading]);
    SetTwice(s.pcs, s1.pcs[m.t], Reading, m.t);
    TimesMore(devs, kbds, s1, m, s2, 0, s2);
    TimesMore(devs, kbds, s, m, s1, 1, s2);
    NothingWritten(false, kbds[m.t], s.out);
  }

  lemma {:induction false} TimesSnoc<D>(devs: Devices<D>, kbds: seq<D>, s: Loop<D>, m: Move<D>, n: nat)
    requires |s.pcs| == |kbds|
    ensures Times(devs, kbds, s, m, n + 1) ==
      var before := Times(devs, kbds, s, m, n);
      if before.None? then None else Apply(devs, kbds, before.value, m)
    decreases n
  {
    var next := Apply(devs, kbds, s, m);
    if n == 0 {
      assert next.Some? ==> Times(devs, kbds, next.value, m, 0) == next;
    } else if next.Some? {
      TimesSnoc(devs, kbds, next.value, m, n - 1);
    }
  }

  // The n moves are a run.
  lemma {:induction false} TimesIsRun<D>(devs: Devices<D>, kbds: seq<D>, s: Loop<D>, m: Move<D>, n: nat)
    requires |s.pcs| == |kbds|
    ensures Times(devs, kbds, s, m, n) == RunFrom(devs, kbds, s, seq(n, i => m))
    decreases n
  {
    if n == 0 {
      assert seq(n, i => m) == [];
    } else {
      TimesIsRun(devs, kbds, s, m, n - 1);
      TimesSnoc(devs, kbds, s, m, n - 1);
      var all: seq<Move<D>> := seq(n, i => m);
      assert all[..n - 1] == seq(n - 1, i => m);
    }
  }

  // A loop that is not interrupted handles its event exactly as the model of
  // whole events says, in two to four steps.
  lemma WholeEvent<D>(devs: Devices<D>, kbds: seq<D>, s: Loop<D>, m: Move<D>) returns (n: nat)
    requires |s.pcs| == |kbds| && m.KeyStep? && m.t < |kbds| && s.pcs[m.t].Reading?
    requires Enumerates(m.order, Keyboard.Tracked(s.core.pressed, m.code, m.down))
    ensures 2 <= n <= 4 && Handled(devs, kbds, s, m, n)
    ensures Times(devs, kbds, s, m, n) == RunFrom(devs, kbds, s, seq(n, i => m))
  {
    var core := Exec(devs, s.core, Track(m.code, m.down));
    assert core.pressed == Keyboard.Tracked(s.core.pressed, m.code, m.down);
    var s1 := s.(core := core, pcs := s.pcs[m.t := Tracked(m.code, m.down, core.remote, core.activeKbd, s.ungrabs)]);
    Reads(devs, kbds, s, m, core);
    if Shortcut(core.pressed, m.code, m.down) {
      n := 3;
      ShortcutIsHandled(devs, kbds, s, m, s1);
    } else if s.core.remote {
      n := 4;
      KeyIsHandled(devs, kbds, s, m, s1);
    } else {
      n := 2;
      LocalIsHandled(devs, kbds, s, m, s1);
    }
    TimesIsRun(devs, kbds, s, m, n);
  }

  lemma Then<D>(devs: Devices<D>, kbds: seq<D>, s: Loop<D>, moves: seq<Move<D>>, before: Loop<D>, m: Move<D>,
        after: Loop<D>)
    requires |s.pcs| == |kbds| == |before.pcs| && RunFrom(devs, kbds, s, moves) == Some(before)
    requires Apply(devs, kbds, before, m) == Some(after)
    ensures RunFrom(devs, kbds, s, moves + [m]) == Some(after) && |after.pcs| == |kbds|
  {
    assert (moves + [m])[..|moves|] == moves;
  }

  // ---- The two ways a session goes wrong ---------------------------------------

  const KEY_A: uint16 := 30
  const KEY_B: uint16 := 48

  function Key<D>(t: nat, code: uint16): Move<D> {
    KeyStep(t, code, true, [LEFT_WIN, F1], {})
  }

  // Win and F1 on the first keyboard, handled to the end: remote mode.
  function Entering<D>(): seq<Move<D>> {
    [Key(0, LEFT_WIN)] + [Key(0, LEFT_WIN)] + [Key(0, F1)] + [Key(0, F1)] + [Key(0, F1)]
  }

  ghost predicate Entered<D>(s: Loop<D>) {
    && s.core.remote && s.core.activeKbd.None? && s.core.pressed == {} && s.pcs == [Reading, Reading]
    && s.ungrabs == 0 && s.choices == [] && s.out == [Released(LEFT_WIN), Released(F1)]
  }

  lemma EnteringEnters<D>(devs: Devices<D>, kbd: D, other: D)
    ensures var r := Interleave(devs, [kbd, other], Entering()); r.Some? && Entered(r.value)
  {
    var kbds, s0 := [kbd, other], Start([kbd, other]);
    var w, f := Key<D>(0, LEFT_WIN), Key<D>(0, F1);
    assert s0.pcs == [Reading, Reading];
    var s1 := Apply(devs, kbds, s0, w).value;
    Then(devs, kbds, s0, [], s0, w, s1);
    assert [] + [w] == [w];
    var s2 := Apply(devs, kbds, s1, w).value;
    Then(devs, kbds, s0, [w], s1, w, s2);
    var s3 := Apply(devs, kbds, s2, f).value;
    Then(devs, kbds, s0, [w] + [w], s2, f, s3);
    assert s3.core.pressed == {LEFT_WIN, F1} && !s3.core.remote;
    var s4 := Apply(devs, kbds, s3, f).value;
    Then(devs, kbds, s0, [w] + [w] + [f], s3, f, s4);
    assert s4.pcs[0] == Switching(false);
    assert Enumerates([LEFT_WIN, F1], s4.core.pressed);
    var s5 := Apply(devs, kbds, s4, f).value;
    Then(devs, kbds, s0, [w] + [w] + [f] + [f], s4, f, s5);
    assert s5.out == [] + Releasing([LEFT_WIN, F1]);
    assert s5.pcs == [Reading, Reading];
  }

  // A key press is read in remote mode, the other machine asks for a return, and
  // only then does the loop act on what it read.
  function LateChoice<D>(): seq<Move<D>> {
    Entering() + [Key(0, KEY_A)] + [Key(0, KEY_A)] + [OnReturn] + [Key(0, KEY_A)]
  }

  // So there are schedules that end in local mode with an active keyboard.
  lemma LateChoiceLeavesKeyboard<D>(devs: Devices<D>, kbd: D, other: D)
    ensures var r := Interleave(devs, [kbd, other], LateChoice());
      && r.Some? && !r.value.core.remote && r.value.core.activeKbd == Some(kbd)
      && r.value.choices == [Choice(kbd, 0, 1)] && r.value.ungrabs == 1
      && (kbd != other ==> Barred([kbd, other], r.value, kbd)) && r.value.out == [Released(LEFT_WIN), Released(F1)]
  {
    EnteringEnters(devs, kbd, other);
    var kbds, s0 := [kbd, other], Start([kbd, other]);
    var a := Key<D>(0, KEY_A);
    var e := Interleave(devs, kbds, Entering()).value;
    var s1 := Apply(devs, kbds, e, a).value;
    Then(devs, kbds, s0, Entering(), e, a, s1);
    var s2 := Apply(devs, kbds, s1, a).value;
    Then(devs, kbds, s0, Entering() + [a], s1, a, s2);
    assert s2.pcs[0] == Deciding(KEY_A, true, None, 0);
    var s3 := Apply(devs, kbds, s2, OnReturn).value;
    Then(devs, kbds, s0, Entering() + [a] + [a], s2, OnReturn, s3);
    var s4 := Apply(devs, kbds, s3, a).value;
    Then(devs, kbds, s0, Entering() + [a] + [a] + [OnReturn], s3, a, s4);
    assert s4.choices == [] + [Choice(kbd, 0, 1)];
  }

  // And whatever happens next, the other keyboard cannot type in a session that
  // follows, even one it entered itself.
  lemma LateChoiceShutsOut<D>(devs: Devices<D>, kbd: D, other: D, more: seq<Move<D>>)
    requires kbd != other
    requires var s := Interleave(devs, [kbd, other], LateChoice());
      s.Some? && RunFrom(devs, [kbd, other], s.value, more).Some?
    ensures var s' := RunFrom(devs, [kbd, other], Interleave(devs, [kbd, other], LateChoice()).value, more).value;
      s'.ungrabs == 1 ==> forall i :: 0 <= i < |s'.out| && s'.out[i].Typed? ==> s'.out[i].kbd == kbd
  {
    LateChoiceLeavesKeyboard(devs, kbd, other);
    var s := Interleave(devs, [kbd, other], LateChoice()).value;
    OthersShutOut(devs, [kbd, other], s, more, kbd);
    var s' := RunFrom(devs, [kbd, other], s, more).value;
    assert forall i :: 0 <= i < |s.out| ==> s'.out[i] == s.out[i];
  }

  // Two keyboards pressed at once both read that none is active.
  function BothChoose<D>(): seq<Move<D>> {
    Entering() + [Key(0, KEY_A)] + [Key(1, KEY_B)] + [Key(0, KEY_A)] + [Key(1, KEY_B)]
    + [Key(0, KEY_A)] + [Key(1, KEY_B)] + [Key(0, KEY_A)] + [Key(1, KEY_B)]
  }

  // So there are schedules, without any Ungrab, in which a session forwards the
  // events of two keyboards.
  lemma TwoTypists<D>(devs: Devices<D>, kbd: D, other: D)
    ensures var r := Interleave(devs, [kbd, other], BothChoose());
      && r.Some? && r.value.core.remote && r.value.ungrabs == 0
      && r.value.out == [Released(LEFT_WIN), Released(F1), Typed(kbd, KEY_A, true), Typed(other, KEY_B, true)]
  {
    EnteringEnters(devs, kbd, other);
    var kbds, s0 := [kbd, other], Start([kbd, other]);
    var a, b := Key<D>(0, KEY_A), Key<D>(1, KEY_B);
    var m0 := Entering<D>();
    var e := Interleave(devs, kbds, m0).value;
    var s1 := Apply(devs, kbds, e, a).value;
    Then(devs, kbds, s0, m0, e, a, s1);
    var m1 := m0 + [a];
    var s2 := Apply(devs, kbds, s1, b).value;
    Then(devs, kbds, s0, m1, s1, b, s2);
    var m2 := m1 + [b];
    assert s2.pcs == [Tracked(KEY_A, true, true, None, 0), Tracked(KEY_B, true, true, None, 0)];
    var s3 := Apply(devs, kbds, s2, a).value;
    Then(devs, kbds, s0, m2, s2, a, s3);
    var m3 := m2 + [a];
    var s4 := Apply(devs, kbds, s3, b).value;
    Then(devs, kbds, s0, m3, s3, b, s4);
    var m4 := m3 + [b];
    assert s4.pcs == [Deciding(KEY_A, true, None, 0), Deciding(KEY_B, true, None, 0)];
    BothForward(devs, kbd, other, m4, s4);
  }

  lemma BothForward<D>(devs: Devices<D>, kbd: D, other: D, moves: seq<Move<D>>, s: Loop<D>)
    requires Interleave(devs, [kbd, other], moves) == Some(s) && s.core.remote && s.ungrabs == 0
    requires s.pcs == [Deciding(KEY_A, true, None, 0), Deciding(KEY_B, true, None, 0)]
    requires s.out == [Released(LEFT_WIN), Released(F1)]
    ensures var r := Interleave(devs, [kbd, other], moves + [Key(0, KEY_A)] + [Key(1, KEY_B)] + [Key(0, KEY_A)] + [Key(1, KEY_B)]);
      && r.Some? && r.value.core.remote && r.value.ungrabs == 0
      && r.value.out == [Released(LEFT_WIN), Released(F1), Typed(kbd, KEY_A, true), Typed(other, KEY_B, true)]
  {
    var kbds, s0 := [kbd, other], Start([kbd, other]);
    var a, b := Key<D>(0, KEY_A), Key<D>(1, KEY_B);
    var s1 := Apply(devs, kbds, s, a).value;
    Then(devs, kbds, s0, moves, s, a, s1);
    var s2 := Apply(devs, kbds, s1, b).value;
    Then(devs, kbds, s0, moves + [a], s1, b, s2);
    assert s2.pcs == [Forwarding(KEY_A, true, Some(kbd)), Forwarding(KEY_B, true, Some(other))];
    var s3 := Apply(devs, kbds, s2, a).value;
    Then(devs, kbds, s0, moves + [a] + [b], s2, a, s3);
    var s4 := Apply(devs, kbds, s3, b).value;
    Then(devs, kbds, s0, moves + [a] + [b] + [a], s3, b, s4);
  }

  // ---- Grabs -------------------------------------------------------------------

  ghost predicate FromDevices<D>(devs: Devices<D>, moves: seq<Move<D>>) {
    forall i :: 0 <= i < |moves| && moves[i].OnPointer? ==> CaptureProofs.Legal(devs, moves[i].section)
  }

  // The grab invariant, in this machine too: its steps are sections of the mutex.
  lemma {:induction false} GrabsStaySound<D>(devs: Devices<D>, kbds: seq<D>, moves: seq<Move<D>>)
    requires CaptureProofs.Sensible(devs) && FromDevices(devs, moves) && Interleave(devs, kbds, moves).Some?
    ensures CaptureProofs.GrabInv(devs, Interleave(devs, kbds, moves).value.core)
  {
    if moves == [] {
    } else {
      var front, m := moves[..|moves| - 1], moves[|moves| - 1];
      GrabsStaySound(devs, kbds, front);
      var s := Interleave(devs, kbds, front).value;
      StepIsSection(devs, kbds, s, m);
    }
  }

  lemma StepIsSection<D>(devs: Devices<D>, kbds: seq<D>, s: Loop<D>, m: Move<D>)
    requires |s.pcs| == |kbds| && Apply(devs, kbds, s, m).Some? && CaptureProofs.Sensible(devs)
    requires m.OnPointer? ==> CaptureProofs.Legal(devs, m.section)
    requires CaptureProofs.GrabInv(devs, s.core)
    ensures CaptureProofs.GrabInv(devs, Apply(devs, kbds, s, m).value.core)
  {
    match m
    case OnPointer(section) => CaptureProofs.ExecKeeps(devs, s.core, section);
    case OnReturn => CaptureProofs.ExecKeeps(devs, s.core, UngrabAll);
    case KeyStep(t, code, down, _, works) =>
      CaptureProofs.ExecKeeps(devs, s.core, Track(code, down));
      CaptureProofs.ExecKeeps(devs, s.core, UngrabAll);
      CaptureProofs.ExecKeeps(devs, s.core, GrabAll(works));
      CaptureProofs.ExecKeeps(devs, s.core, ChooseKeyboard(kbds[t]));
  }
}
