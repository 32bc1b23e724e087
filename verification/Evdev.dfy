/** The capture object itself, updated in place as the device loops do it. Each
    method is one critical section of its mutex, except OnKey, which is one key
    event handled to the end. */
module Evdev {
  import opened Wrappers
  import opened Bytes
  import opened Detector
  import opened Capture
  import CaptureProofs
  import opened Keyboard

  /** An open device; the physical path and the name are the normalised ones. */
  class DeviceHandle {
    const path: string
    const phys: string
    const name: string
    var grabbed: bool

    constructor (path: string, phys: string, name: string)
      ensures this.path == path && this.phys == phys && this.name == name && !grabbed
    {
      this.path, this.phys, this.name, grabbed := path, phys, name, false;
    }
  }

  function AsOption(d: DeviceHandle?): Option<DeviceHandle> {
    if d == null then None else Some(d)
  }

  predicate SamePhysicalDevice(a: DeviceHandle, b: DeviceHandle) {
    (a.phys != "" && a.phys == b.phys) || (a.name != "" && a.name == b.name)
  }

  function Matching(kbd: DeviceHandle, mice: seq<DeviceHandle>): (r: seq<DeviceHandle>)
    ensures forall i :: 0 <= i < |r| ==> r[i] in mice && SamePhysicalDevice(kbd, r[i])
    ensures forall i :: 0 <= i < |mice| && SamePhysicalDevice(kbd, mice[i]) ==> mice[i] in r
  {
    if mice == [] then []
    else
      var m := mice[|mice| - 1];
      Matching(kbd, mice[..|mice| - 1]) + if SamePhysicalDevice(kbd, m) then [m] else []
  }

  // Which of the mice comes first: none only if none matches.
  lemma {:induction false} FirstMatch(kbd: DeviceHandle, mice: seq<DeviceHandle>) returns (i: nat)
    ensures i <= |mice| && forall j :: 0 <= j < i ==> !SamePhysicalDevice(kbd, mice[j])
    ensures if i == |mice| then Matching(kbd, mice) == []
            else Matching(kbd, mice) != [] && Matching(kbd, mice)[0] == mice[i] && SamePhysicalDevice(kbd, mice[i])
    decreases |mice|
  {
    if mice == [] {
      i := 0;
    } else {
      var front, m := mice[..|mice| - 1], mice[|mice| - 1];
      i := FirstMatch(kbd, front);
      if i == |front| && !SamePhysicalDevice(kbd, m) {
        i := |mice|;
      }
    }
  }

  ghost predicate SharesPath(path: string, mice: seq<DeviceHandle>) {
    exists i :: 0 <= i < |mice| && mice[i].path == path
  }

  class EvdevCapture {
    const mouseDevs: seq<DeviceHandle>
    const kbdDevs: seq<DeviceHandle>
    var activeMouseDev: DeviceHandle?
    var activeKbdDev: DeviceHandle?
    var isRemote: bool
    var pressedKeys: set<uint16>
    var pendingMouse: DeviceHandle?
    var pendingHits: nat
    var pendingMotion: int
    var pendingUntil: int
    var forwarded: seq<Forward>  // the calls of OnKeyEvent

    ghost function Devs(): Devices<DeviceHandle> {
      Devices(set m | m in mouseDevs, set k | k in kbdDevs,
              set k | k in kbdDevs && SharesPath(k.path, mouseDevs),
              (k: DeviceHandle) => Matching(k, mouseDevs))
    }

    ghost function GrabbedOf(devs: seq<DeviceHandle>): set<DeviceHandle>
      reads devs
    {
      set d | d in devs && d.grabbed
    }

    ghost function Candidacy(): Pending<DeviceHandle>
      reads this
    {
      if pendingMouse == null then Idle
      else Candidate(pendingMouse as DeviceHandle, pendingHits, pendingMotion, pendingUntil)
    }

    // The state of the capture model that the fields stand for.
    ghost function View(): State<DeviceHandle>
      reads this, mouseDevs, kbdDevs
    {
      State(isRemote, AsOption(activeMouseDev), AsOption(activeKbdDev), Candidacy(),
            GrabbedOf(mouseDevs), GrabbedOf(kbdDevs), pressedKeys)
    }

    // Mouse and keyboard handles are separate objects, even for one path.
    ghost predicate Valid()
      reads this
    {
      && (forall m, k :: m in mouseDevs && k in kbdDevs ==> m != k)
      && (activeMouseDev != null ==> activeMouseDev in mouseDevs)
    }

    constructor (mice: seq<DeviceHandle>, kbds: seq<DeviceHandle>)
      requires forall m, k :: m in mice && k in kbds ==> m != k
      requires forall d :: d in mice || d in kbds ==> !d.grabbed
      ensures Valid() && mouseDevs == mice && kbdDevs == kbds
      ensures View() == Boot() && forwarded == []
    {
      mouseDevs, kbdDevs := mice, kbds;
      activeMouseDev, activeKbdDev, isRemote, pressedKeys := null, null, false, {};
      pendingMouse, pendingHits, pendingMotion, pendingUntil := null, 0, 0, 0;
      forwarded := [];
    }

    lemma DevsAreSensible()
      ensures CaptureProofs.Sensible(Devs())
    {
      forall k: DeviceHandle, i | k in Devs().kbds && 0 <= i < |Devs().matches(k)|
        ensures Devs().matches(k)[i] in Devs().mice
      {
        assert Devs().matches(k)[i] in Matching(k, mouseDevs);
      }
    }

    // ---- Device look-up ----------------------------------------------------

    method IsMouseDevicePath(path: string) returns (found: bool)
      ensures found <==> SharesPath(path, mouseDevs)
    {
      for i := 0 to |mouseDevs|
        invariant forall j :: 0 <= j < i ==> mouseDevs[j].path != path
      {
        if mouseDevs[i].path == path {
          return true;
        }
      }
      return false;
    }

    method MouseSourceForKeyboardButton(kbd: DeviceHandle) returns (source: DeviceHandle?)
      requires Valid() && kbd in kbdDevs
      ensures AsOption(source) == SourceFor(Devs(), AsOption(activeMouseDev), kbd)
      ensures source != null ==> source in mouseDevs
    {
      var combo := IsMouseDevicePath(kbd.path);
      if combo {
        return null;
      }
      var matches: seq<DeviceHandle> := [];
      for i := 0 to |mouseDevs|
        invariant matches == Matching(kbd, mouseDevs[..i])
      {
        assert mouseDevs[..i + 1][..i] == mouseDevs[..i];
        if SamePhysicalDevice(kbd, mouseDevs[i]) {
          matches := matches + [mouseDevs[i]];
        }
      }
      assert mouseDevs[..|mouseDevs|] == mouseDevs;
      if |matches| == 0 {
        return null;
      }
      if |matches| == 1 {
        return matches[0];
      }
      for i := 0 to |matches|
        invariant forall j :: 0 <= j < i ==> matches[j] != activeMouseDev
      {
        if matches[i] == activeMouseDev {
          return matches[i];
        }
      }
      return matches[0];
    }

    // The mouse a keyboard-like handle's buttons belong to, by the paths, physical
    // paths and names of the open devices: none if the handle is a mouse's own or
    // no mouse has its physical path or its name; else the active mouse if it is
    // such a one; else the first such.
    lemma SourceIs(kbd: DeviceHandle) returns (i: nat)
      requires Valid() && kbd in kbdDevs
      ensures match SourceFor(Devs(), AsOption(activeMouseDev), kbd)
        case None =>
          || (exists k :: 0 <= k < |mouseDevs| && mouseDevs[k].path == kbd.path)
          || (forall k :: 0 <= k < |mouseDevs| ==>
                (kbd.phys == "" || mouseDevs[k].phys != kbd.phys) && (kbd.name == "" || mouseDevs[k].name != kbd.name))
        case Some(m) =>
          && (forall k :: 0 <= k < |mouseDevs| ==> mouseDevs[k].path != kbd.path)
          && i < |mouseDevs| && mouseDevs[i] == m
          && ((kbd.phys != "" && m.phys == kbd.phys) || (kbd.name != "" && m.name == kbd.name))
          && (m == activeMouseDev ||
              forall k :: 0 <= k < |mouseDevs| && (k < i || mouseDevs[k] == activeMouseDev) ==>
                (kbd.phys == "" || mouseDevs[k].phys != kbd.phys) && (kbd.name == "" || mouseDevs[k].name != kbd.name))
    {
      i := FirstMatch(kbd, mouseDevs);
      var matches := Matching(kbd, mouseDevs);
      assert forall k :: 0 <= k < |mouseDevs| && SamePhysicalDevice(kbd, mouseDevs[k]) ==> mouseDevs[k] in matches;
      if activeMouseDev != null && activeMouseDev in matches {
        i :| 0 <= i < |mouseDevs| && mouseDevs[i] == activeMouseDev;
      }
    }

    // ---- Intent ------------------------------------------------------------

    method ResetPending()
      modifies this`pendingMouse, this`pendingHits, this`pendingMotion, this`pendingUntil
      ensures Candidacy() == Idle
    {
      pendingMouse, pendingHits, pendingMotion, pendingUntil := null, 0, 0, 0;
    }

    method RegisterPendingMouse(source: DeviceHandle, ev: InputEvent, now: int)
      modifies this`pendingMouse, this`pendingHits, this`pendingMotion, this`pendingUntil
      ensures Candidacy() == Register(old(Candidacy()), source, AbsInt(ev.value), now)
    {
      if pendingMouse != source || now > pendingUntil {
        pendingMouse, pendingHits, pendingMotion := source, 1, AbsInt(ev.value);
        pendingUntil := now + WINDOW;
        return;
      }
      pendingHits := pendingHits + 1;
      pendingMotion := pendingMotion + AbsInt(ev.value);
      pendingUntil := now + WINDOW;
    }

    method DecideMouseActivation(source: DeviceHandle, ev: InputEvent, now: int) returns (action: Action)
      modifies this`pendingMouse, this`pendingHits, this`pendingMotion, this`pendingUntil
      ensures var o := Observe(AsOption(activeMouseDev), source, ev, now);
        && Candidacy() == Detector.After(old(Candidacy()), o)
        && action == if Granted(old(Candidacy()), o) then ActionFor(AsOption(activeMouseDev), source, ev) else NoAction
    {
      var base := ActionFor(AsOption(activeMouseDev), source, ev);
      if base.NoAction? {
        if now >= pendingUntil {
          ResetPending();
        }
        return NoAction;
      }
      if IsMouseButtonPress(ev) {
        ResetPending();
        return base;
      }
      RegisterPendingMouse(source, ev, now);
      if pendingHits < 2 || pendingMotion < MIN_MOTION {
        return NoAction;
      }
      ResetPending();
      return base;
    }

    // ---- Grabbing one mouse ------------------------------------------------

    method UngrabMouse(dev: DeviceHandle?)
      requires Valid() && (dev != null ==> dev in mouseDevs)
      modifies mouseDevs
      ensures View() == Release(old(View()), AsOption(dev))
    {
      if dev == null || !dev.grabbed {
        return;
      }
      dev.grabbed := false;
      assert GrabbedOf(mouseDevs) == old(GrabbedOf(mouseDevs)) - {dev};
      assert GrabbedOf(kbdDevs) == old(GrabbedOf(kbdDevs));
    }

    method GrabMouse(dev: DeviceHandle, works: bool)
      requires Valid() && dev in mouseDevs
      modifies mouseDevs, this`activeMouseDev
      ensures Valid() && View() == Select(old(View()), dev, works)
    {
      activeMouseDev := dev;
      if !dev.grabbed && works {
        dev.grabbed := true;
      }
      assert GrabbedOf(mouseDevs) == if works then old(GrabbedOf(mouseDevs)) + {dev} else old(GrabbedOf(mouseDevs));
      assert GrabbedOf(kbdDevs) == old(GrabbedOf(kbdDevs));
    }

    // Decide, then activate or rebind: what the pointer and the keyboard loop share.
    method ConsiderMouse(source: DeviceHandle, ev: InputEvent, now: int, works: bool)
      requires Valid() && source in mouseDevs
      modifies this`pendingMouse, this`pendingHits, this`pendingMotion, this`pendingUntil, this`activeMouseDev, mouseDevs
      ensures Valid() && View() == Consider(old(View()), source, ev, now, works)
    {
      var action := DecideMouseActivation(source, ev, now);
      match action
      case NoAction =>
      case Activate =>
        GrabMouse(source, works);
      case Rebind =>
        UngrabMouse(activeMouseDev);
        GrabMouse(source, works);
    }

    // The locked part of the mouse loop, and whether the event is forwarded.
    method OnMouse(dev: DeviceHandle, ev: InputEvent, now: int, works: bool) returns (forward: bool)
      requires Valid() && dev in mouseDevs
      modifies this`pendingMouse, this`pendingHits, this`pendingMotion, this`pendingUntil, this`activeMouseDev, mouseDevs
      ensures Valid() && View() == Exec(Devs(), old(View()), MouseEvent(dev, ev, now, works))
      ensures forward <==> View().remote && View().active == Some(dev)
    {
      if isRemote {
        ConsiderMouse(dev, ev, now, works);
      }
      return isRemote && activeMouseDev == dev;
    }

    // The locked part of the keyboard loop for a mouse button.
    method OnKeyboardButton(kbd: DeviceHandle, ev: InputEvent, now: int, works: bool) returns (forward: bool)
      requires Valid() && kbd in kbdDevs
      modifies this`pendingMouse, this`pendingHits, this`pendingMotion, this`pendingUntil, this`activeMouseDev, mouseDevs
      ensures Valid() && View() == Exec(Devs(), old(View()), KeyboardButton(kbd, ev, now, works))
      ensures var source := SourceFor(Devs(), old(View()).active, kbd);
        forward <==> View().remote && source.Some? && View().active == source
    {
      if !isRemote {
        return false;
      }
      var source := MouseSourceForKeyboardButton(kbd);
      if source == null {
        return false;
      }
      ConsiderMouse(source, ev, now, works);
      return activeMouseDev == source;
    }

    // ---- Switching modes ---------------------------------------------------

    method GrabKeyboards(works: set<DeviceHandle>)
      requires Valid()
      modifies kbdDevs
      ensures View() == old(View()).(kbds := old(View()).kbds + (Devs().kbds * works - Devs().combo))
    {
      for i := 0 to |kbdDevs|
        invariant forall m :: m in mouseDevs ==> m.grabbed == old(m.grabbed)
        invariant forall k :: k in kbdDevs ==>
          k.grabbed == (old(k.grabbed) || (k in kbdDevs[..i] && k in works && !SharesPath(k.path, mouseDevs)))
      {
        var dev := kbdDevs[i];
        var combo := IsMouseDevicePath(dev.path);
        if !combo && !dev.grabbed && dev in works {
          dev.grabbed := true;
        }
      }
    }

    method GrabTrigger(activeMouse: DeviceHandle?, works: set<DeviceHandle>)
      requires Valid() && (activeMouse != null ==> activeMouse in mouseDevs)
      modifies this`pendingMouse, this`pendingHits, this`pendingMotion, this`pendingUntil, this`activeMouseDev, mouseDevs
      ensures Valid()
      ensures View() ==
        if activeMouse == null then old(View()).(pending := Idle)
        else if old(activeMouse.grabbed) || activeMouse !in works then old(View())
        else Select(old(View()), activeMouse, true)
    {
      if activeMouse != null && !activeMouse.grabbed {
        if activeMouse in works {
          GrabMouse(activeMouse, true);
        }
      } else if activeMouse == null {
        ResetPending();
      }
    }

    // Grab; returns, for the proof, the order in which the tracked keys were released.
    method Grab(activeMouse: DeviceHandle?, works: set<DeviceHandle>) returns (ghost order: seq<uint16>)
      requires Valid() && (activeMouse != null ==> activeMouse in mouseDevs)
      modifies this, mouseDevs, kbdDevs
      ensures Valid() && View() == Capture.Grab(Devs(), old(View()), AsOption(activeMouse), works)
      ensures Enumerates(order, old(pressedKeys)) && forwarded == old(forwarded) + Releases(order)
    {
      GrabTrigger(activeMouse, works);
      GrabKeyboards(works);
      isRemote := true;
      order := ReleaseTracked();
    }

    method ReleaseTracked() returns (ghost order: seq<uint16>)
      modifies this`pressedKeys, this`forwarded
      ensures pressedKeys == {}
      ensures Enumerates(order, old(pressedKeys)) && forwarded == old(forwarded) + Releases(order)
    {
      order := [];
      while pressedKeys != {}
        invariant pressedKeys <= old(pressedKeys)
        invariant Enumerates(order, old(pressedKeys) - pressedKeys)
        invariant forwarded == old(forwarded) + Releases(order)
        decreases pressedKeys
      {
        var code :| code in pressedKeys;
        forwarded := forwarded + [Forward(code, false)];
        pressedKeys := pressedKeys - {code};
        assert Releases(order + [code]) == Releases(order) + [Forward(code, false)];
        order := order + [code];
      }
      assert old(pressedKeys) - pressedKeys == old(pressedKeys);
    }

    method UngrabDevices(devs: seq<DeviceHandle>)
      modifies devs
      ensures forall d :: d in devs ==> !d.grabbed
    {
      for i := 0 to |devs|
        invariant forall j :: 0 <= j < i ==> !devs[j].grabbed
      {
        if devs[i].grabbed {
          devs[i].grabbed := false;
        }
      }
    }

    method Ungrab()
      requires Valid()
      modifies this, mouseDevs, kbdDevs
      ensures Valid() && View() == Capture.Ungrab(old(View())) && forwarded == old(forwarded)
    {
      UngrabDevices(mouseDevs);
      UngrabDevices(kbdDevs);
      isRemote, activeMouseDev, activeKbdDev := false, null, null;
      ResetPending();
    }

    // ---- One key event -----------------------------------------------------

    method TrackKey(code: uint16, down: bool)
      modifies this`pressedKeys
      ensures View() == Exec(Devs(), old(View()), Track(code, down))
    {
      if down {
        pressedKeys := pressedKeys + {code};
      } else {
        pressedKeys := pressedKeys - {code};
      }
    }

    // Remote mode: the first keyboard pressed is the only one forwarded.
    method ForwardKey(kbd: DeviceHandle, code: uint16, down: bool)
      modifies this`activeKbdDev, this`forwarded
      ensures View() == if old(activeKbdDev) == null && down then Exec(Devs(), old(View()), ChooseKeyboard(kbd)) else old(View())
      ensures forwarded == old(forwarded) + if View().activeKbd == Some(kbd) then [Forward(code, down)] else []
    {
      if activeKbdDev == null && down {
        activeKbdDev := kbd;
      }
      if kbd != activeKbdDev {
        return;
      }
      forwarded := forwarded + [Forward(code, down)];
    }

    method OnKey(kbd: DeviceHandle, code: uint16, down: bool, works: set<DeviceHandle>)
      returns (ghost order: seq<uint16>)
      requires Valid() && kbd in kbdDevs
      modifies this, mouseDevs, kbdDevs
      ensures Valid() && Enumerates(order, Tracked(old(pressedKeys), code, down))
      ensures var (s, out) := Keyboard.OnKey(Devs(), old(View()), kbd, code, down, order, works);
        View() == s && forwarded == old(forwarded) + out
    {
      TrackKey(code, down);
      order := Enumerate(pressedKeys);
      var hasWin := LEFT_WIN in pressedKeys || RIGHT_WIN in pressedKeys;
      if isRemote {
        if (code == F1 || code == F2) && down && hasWin {
          Ungrab();
          return;
        }
        ForwardKey(kbd, code, down);
      } else if (code == F1 || code == F2) && down && hasWin {
        order := Grab(null, works);
      }
    }
  }

  // Every finite set of keys can be listed.
  ghost function Enumerate(codes: set<uint16>): (order: seq<uint16>)
    ensures Enumerates(order, codes)
  {
    if codes == {} then []
    else
      var c :| c in codes;
      Enumerate(codes - {c}) + [c]
  }
}
