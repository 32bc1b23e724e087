/** Telling an intended mouse movement from noise: the incremental detector, a
    specification over the whole history, and why they agree. */
module Detector {

  const WINDOW: int := 150_000_000  // 150 ms in nanoseconds
  const MIN_MOTION: int := 4

  /** What the detector sees of one event or call. */
  datatype Obs<D> =
    | Motion(source: D, magnitude: int, now: int)  // a qualifying motion of a source that is not active
    | Quiet(now: int)                              // an event that asks for nothing
    | Press                                        // a button press of a source that is not active
    | Clear                                        // Grab(nil) or Ungrab

  /** The pending fields; Idle is the reset state. */
  datatype Pending<D> = Idle | Candidate(mouse: D, hits: nat, motion: int, until: int)

  // registerPendingMouseLocked
  function Register<D(==)>(p: Pending<D>, source: D, magnitude: int, now: int): Pending<D> {
    if p.Candidate? && p.mouse == source && now <= p.until then
      Candidate(source, p.hits + 1, p.motion + magnitude, now + WINDOW)
    else
      Candidate(source, 1, magnitude, now + WINDOW)
  }

  predicate Enough<D>(p: Pending<D>) {
    p.Candidate? && p.hits >= 2 && p.motion >= MIN_MOTION
  }

  // Whether this observation makes the detector ask for the mouse.
  predicate FiresNow<D(==)>(p: Pending<D>, o: Obs<D>) {
    o.Motion? && Enough(Register(p, o.source, o.magnitude, o.now))
  }

  function After<D(==)>(p: Pending<D>, o: Obs<D>): Pending<D> {
    match o
    case Motion(s, m, t) => if FiresNow(p, o) then Idle else Register(p, s, m, t)
    case Quiet(t) => if p.Candidate? && t < p.until then p else Idle
    case Press => Idle
    case Clear => Idle
  }

  function Replay<D(==)>(h: seq<Obs<D>>): Pending<D> {
    if h == [] then Idle else After(Replay(h[..|h| - 1]), h[|h| - 1])
  }

  // ---- The specification over histories ------------------------------------

  // The last motion before position k, or -1.
  function LastMotion<D>(h: seq<Obs<D>>, k: nat): (j: int)
    requires k <= |h|
    ensures -1 <= j < k && (j >= 0 ==> h[j].Motion?)
    ensures forall i :: j < i < k ==> !h[i].Motion?
  {
    if k == 0 then -1 else if h[k - 1].Motion? then k - 1 else LastMotion(h, k - 1)
  }

  // Observation k does not break the run that began at i.
  predicate Continues<D(==)>(h: seq<Obs<D>>, i: nat, k: nat)
    requires i < k < |h| && h[i].Motion?
  {
    var j := LastMotion(h, k);
    match h[k]
    case Motion(s, _, t) => s == h[i].source && t <= h[j].now + WINDOW
    case Quiet(t) => t < h[j].now + WINDOW
    case Press => false
    case Clear => false
  }

  // The observations from i on are one unbroken run in which nothing fired yet.
  ghost predicate Unbroken<D>(h: seq<Obs<D>>, i: nat)
    decreases |h|, 0
  {
    && i < |h| && h[i].Motion?
    && (forall k :: i < k < |h| ==> Continues(h, i, k))
    && (forall k :: i < k < |h| ==> !Fires(h[..k]))
  }

  ghost predicate Longest<D>(h: seq<Obs<D>>, i: nat)
    decreases |h|, 1
  {
    Unbroken(h, i) && forall j: nat :: j < i ==> !Unbroken(h, j)
  }

  function Hits<D>(h: seq<Obs<D>>, i: nat): nat {
    if |h| <= i then 0
    else Hits(h[..|h| - 1], i) + if h[|h| - 1].Motion? then 1 else 0
  }

  function Total<D>(h: seq<Obs<D>>, i: nat): int {
    if |h| <= i then 0
    else Total(h[..|h| - 1], i) + if h[|h| - 1].Motion? then h[|h| - 1].magnitude else 0
  }

  // The last observation is a motion that ends an unbroken run of at least two
  // motions of one source totalling at least four.
  ghost predicate Fires<D>(h: seq<Obs<D>>)
    decreases |h|, 2
  {
    && h != [] && h[|h| - 1].Motion?
    && exists i: nat :: Longest(h, i) && Hits(h, i) >= 2 && Total(h, i) >= MIN_MOTION
  }

  // ---- Refinement ----------------------------------------------------------

  lemma LastMotionOfPrefix<D>(h: seq<Obs<D>>, n: nat, k: nat)
    requires k <= n <= |h|
    ensures LastMotion(h[..n], k) == LastMotion(h, k)
  {
    if k > 0 && !h[k - 1].Motion? {
      LastMotionOfPrefix(h, n, k - 1);
    }
  }

  // A run of h that began earlier is an unfired run of the front which the last
  // observation continues.
  lemma RunExtends<D>(h: seq<Obs<D>>, i: nat)
    requires i + 1 < |h|
    ensures var front := h[..|h| - 1];
      Unbroken(h, i) <==> Unbroken(front, i) && !Fires(front) && Continues(h, i, |h| - 1)
  {
    var n := |h| - 1;
    var front := h[..n];
    forall k | i < k < n
      ensures h[i].Motion? ==> Continues(front, i, k) == Continues(h, i, k)
      ensures front[..k] == h[..k]
    {
      LastMotionOfPrefix(h, n, k);
    }
  }

  // All runs alive at the end belong to one source, so they live or die together.
  lemma SameSource<D>(h: seq<Obs<D>>, i: nat, j: nat)
    requires Unbroken(h, i) && Unbroken(h, j)
    ensures h[i].source == h[j].source
  {
    if i < j {
      assert Continues(h, i, j);
    } else if j < i {
      assert Continues(h, j, i);
    }
  }

  // What the fields record: the start of the longest unfired run, or nothing.
  ghost predicate Summary<D>(h: seq<Obs<D>>, p: Pending<D>, i: nat) {
    match p
    case Idle => forall j: nat :: Unbroken(h, j) ==> Fires(h)
    case Candidate(s, n, m, u) =>
      && i < |h| && h[i].Motion?
      && Longest(h, i) && !Fires(h)
      && s == h[i].source && n == Hits(h, i) && m == Total(h, i)
      && LastMotion(h, |h|) >= 0 && u == h[LastMotion(h, |h|)].now + WINDOW
  }

  lemma ContinuesIffPending<D>(h: seq<Obs<D>>, p: Pending<D>, i: nat)
    requires i + 1 < |h| && p.Candidate? && h[i].Motion? && Summary(h[..|h| - 1], p, i)
    ensures Continues(h, i, |h| - 1) <==>
      match h[|h| - 1]
      case Motion(s, _, t) => s == p.mouse && t <= p.until
      case Quiet(t) => t < p.until
      case _ => false
  {
    LastMotionOfPrefix(h, |h| - 1, |h| - 1);
  }

  // If the run does not go on, no earlier run does.
  lemma NothingGoesOn<D>(h: seq<Obs<D>>, p: Pending<D>, i: nat)
    requires h != [] && Summary(h[..|h| - 1], p, i)
    requires p.Candidate? ==> i + 1 < |h| && h[i].Motion? && !Continues(h, i, |h| - 1)
    ensures forall j: nat :: j < |h| - 1 ==> !Unbroken(h, j)
  {
    forall j: nat | j < |h| - 1
      ensures !Unbroken(h, j)
    {
      RunExtends(h, j);
      var front := h[..|h| - 1];
      if Unbroken(front, j) && !Fires(front) {
        SameSource(front, i, j);
      }
    }
  }

  // The run goes on: its start is still the longest.
  lemma GoesOn<D>(h: seq<Obs<D>>, p: Pending<D>, i: nat)
    requires i + 1 < |h| && p.Candidate? && h[i].Motion? && Summary(h[..|h| - 1], p, i) && Continues(h, i, |h| - 1)
    ensures Longest(h, i)
  {
    RunExtends(h, i);
    forall j: nat | j < i
      ensures !Unbroken(h, j)
    {
      RunExtends(h, j);
    }
  }

  // Whatever the magnitudes: a motion that ends the longest unbroken run fires
  // exactly when the run has two motions and totals four.
  lemma FiresOnTotal<D>(h: seq<Obs<D>>, i: nat)
    requires i < |h| && Longest(h, i)
    ensures Fires(h) <==> h[|h| - 1].Motion? && Hits(h, i) >= 2 && Total(h, i) >= MIN_MOTION
  {
    forall j: nat | Longest(h, j)
      ensures j == i
    {
      assert !(j < i) && !(i < j);
    }
  }

  // The refinement: the fields always summarise the history, and the detector
  // fires exactly when the specification does.
  lemma {:induction false} Refines<D>(h: seq<Obs<D>>) returns (i: nat)
    ensures Summary(h, Replay(h), i)
    ensures h != [] ==> (FiresNow(Replay(h[..|h| - 1]), h[|h| - 1]) <==> Fires(h))
    decreases |h|
  {
    if h == [] {
      return 0;
    }
    var n := |h| - 1;
    var front, o := h[..n], h[n];
    var p := Replay(front);
    i := Refines(front);
    if p.Candidate? {
      ContinuesIffPending(h, p, i);
      if Continues(h, i, n) {
        GoesOn(h, p, i);
        FiresOnTotal(h, i);
        return;
      }
    }
    NothingGoesOn(h, p, i);
    i := n;
    if o.Motion? {
      assert Longest(h, n);
      StartsAfresh(h);
      FiresOnTotal(h, n);
    }
  }

  lemma StartsAfresh<D>(h: seq<Obs<D>>)
    requires h != [] && h[|h| - 1].Motion?
    ensures Hits(h, |h| - 1) == 1 && Total(h, |h| - 1) == h[|h| - 1].magnitude
  {
  }

  // Firing, for every history.
  lemma FiresIff<D>(h: seq<Obs<D>>, o: Obs<D>)
    ensures FiresNow(Replay(h), o) <==> Fires(h + [o])
  {
    assert (h + [o])[..|h|] == h;
    var _ := Refines(h + [o]);
  }

  // ---- Bound and progress --------------------------------------------------

  ghost predicate Positive<D>(h: seq<Obs<D>>) {
    forall k :: 0 <= k < |h| && h[k].Motion? ==> h[k].magnitude >= 1
  }

  // With positive magnitudes at most three motions are ever pending, and they
  // total at most three once there are two.
  lemma {:induction false} PendingBound<D>(h: seq<Obs<D>>)
    requires Positive(h)
    ensures var p := Replay(h);
      p.Candidate? ==> 1 <= p.hits <= 3 && (p.hits >= 2 ==> p.hits <= p.motion <= 3)
    ensures Replay(h).Candidate? ==> Replay(h).motion >= 1
    decreases |h|
  {
    if h == [] {
    } else {
      PendingBound(h[..|h| - 1]);
    }
  }

  lemma {:induction false} HitsMonotone<D>(h: seq<Obs<D>>, i: nat, j: nat)
    requires i <= j
    ensures Hits(h, i) >= Hits(h, j)
    decreases |h|
  {
    if |h| > i {
      HitsMonotone(h[..|h| - 1], i, j);
    }
  }

  // Hence the fourth motion of an unbroken run fires at the latest.
  lemma FourMotionsFire<D>(h: seq<Obs<D>>, i: nat)
    requires Positive(h) && Unbroken(h, i) && Hits(h, i) >= 4
    ensures Fires(h)
  {
    PendingBound(h);
    var start := Refines(h);
    if Replay(h).Candidate? {
      HitsMonotone(h, start, i);
    }
  }
}
