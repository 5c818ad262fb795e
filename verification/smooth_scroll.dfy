/** The smooth scroller of the single-page front end: the quartic
    ease-in-out curve, the plan computed when a navigation link is
    activated, and the per-frame callback that moves the window.

    Numbers are mathematical reals (no floating-point rounding). The
    document geometry (the target's bounding-box top, the navbar's height)
    and the frame timestamps are inputs. */
module SmoothScroll {
  import opened Wrappers

  /** Animation length in milliseconds. */
  const Duration: real := 700.0

  /** Navbar height used when there is no navbar element. */
  const FallbackNavbarHeight: real := 60.0

  function Pow4(x: real): (r: real)
    ensures r >= 0.0
  {
    var sq := x * x;
    assert sq >= 0.0;
    sq * sq
  }

  /** The quartic ease-in-out curve: `8t^4` below one half, `1 - (2 - 2t)^4 / 2` from there on. */
  function EaseInOutQuart(t: real): real {
    if t < 0.5 then 8.0 * Pow4(t) else 1.0 - Pow4(-2.0 * t + 2.0) / 2.0
  }

  lemma MulLeft(c: real, a: real, b: real)
    requires 0.0 <= c && a <= b
    ensures c * a <= c * b
  {
  }

  lemma SquareMonotone(x: real, y: real)
    requires 0.0 <= x <= y
    ensures x * x <= y * y
  {
    MulLeft(x, x, y);
    MulLeft(y, x, y);
  }

  /** x^4 is non-decreasing on the non-negative reals. */
  lemma Pow4Monotone(x: real, y: real)
    requires 0.0 <= x <= y
    ensures Pow4(x) <= Pow4(y)
  {
    SquareMonotone(x, y);
    SquareMonotone(x * x, y * y);
  }

  /** The curve starts at 0, passes through one half at the midpoint and ends at 1. */
  lemma EaseFixedPoints()
    ensures EaseInOutQuart(0.0) == 0.0
    ensures EaseInOutQuart(0.5) == 0.5
    ensures EaseInOutQuart(1.0) == 1.0
  {
  }

  /** On [0, 1] the curve stays within [0, 1], and each half stays on its side of one half. */
  lemma EaseBounds(t: real)
    requires 0.0 <= t <= 1.0
    ensures 0.0 <= EaseInOutQuart(t) <= 1.0
    ensures t < 0.5 ==> EaseInOutQuart(t) <= 0.5
    ensures t >= 0.5 ==> EaseInOutQuart(t) >= 0.5
  {
    if t < 0.5 {
      Pow4Monotone(t, 0.5);
    } else {
      Pow4Monotone(-2.0 * t + 2.0, 1.0);
    }
  }

  /** On [0, 1] the curve never moves backwards. */
  lemma EaseMonotone(a: real, b: real)
    requires 0.0 <= a <= b <= 1.0
    ensures EaseInOutQuart(a) <= EaseInOutQuart(b)
  {
    if b < 0.5 {
      Pow4Monotone(a, b);
    } else if 0.5 <= a {
      Pow4Monotone(-2.0 * b + 2.0, -2.0 * a + 2.0);
    } else {
      EaseBounds(a);
      EaseBounds(b);
    }
  }

  /** The curve is point-symmetric about (1/2, 1/2): easing out mirrors easing in. */
  lemma EaseSymmetric(t: real)
    ensures EaseInOutQuart(1.0 - t) == 1.0 - EaseInOutQuart(t)
  {
    if t < 0.5 {
      assert -2.0 * (1.0 - t) + 2.0 == 2.0 * t;
      assert Pow4(2.0 * t) == 16.0 * Pow4(t);
    } else if t > 0.5 {
      assert -2.0 * t + 2.0 == 2.0 * (1.0 - t);
      assert Pow4(2.0 * (1.0 - t)) == 16.0 * Pow4(1.0 - t);
    }
  }

  /** One animation: where it starts, how far it goes, when it started. */
  datatype ScrollJob = ScrollJob(startY: real, distance: real, startTime: real)

  function TargetY(job: ScrollJob): real {
    job.startY + job.distance
  }

  /** `scrollToSection` up to the first frame request. `targetTop` is the
      target element's bounding-box top (None: no element with that id),
      `navbarHeight` the navbar's height (None: no navbar). */
  function PlanScroll(targetTop: Option<real>, navbarHeight: Option<real>, scrollY: real, now: real): (job: Option<ScrollJob>)
    ensures job.None? <==> targetTop.None?
    ensures job.Some? ==> job.value.startY == scrollY && job.value.startTime == now
    ensures job.Some? ==> TargetY(job.value) == scrollY + targetTop.value - navbarHeight.GetOr(FallbackNavbarHeight)
  {
    match targetTop
    case None => None
    case Some(top) =>
      var height := match navbarHeight case Some(h) => h case None => FallbackNavbarHeight;
      var targetY := top + scrollY - height;
      Some(ScrollJob(scrollY, targetY - scrollY, now))
  }

  function Min(a: real, b: real): real {
    if a <= b then a else b
  }

  /** `Math.min(elapsed / duration, 1)`: clamped from above only. */
  function Progress(job: ScrollJob, now: real): (p: real)
    ensures p <= 1.0
    ensures p == 1.0 <==> now >= job.startTime + Duration
    ensures now < job.startTime ==> p < 0.0
    ensures job.startTime <= now ==> 0.0 <= p
  {
    Min((now - job.startTime) / Duration, 1.0)
  }

  /** The position one frame writes. */
  function FramePosition(job: ScrollJob, now: real): real {
    job.startY + job.distance * EaseInOutQuart(Progress(job, now))
  }

  /** A frame stamped at the start time writes the start offset. */
  lemma FirstFrameAtStart(job: ScrollJob)
    ensures FramePosition(job, job.startTime) == job.startY
  {
    assert Progress(job, job.startTime) == 0.0;
    assert EaseInOutQuart(0.0) == 0.0;
  }

  /** The frame that sees progress 1 lands exactly on the target. */
  lemma LastFrameOnTarget(job: ScrollJob, now: real)
    requires now >= job.startTime + Duration
    ensures FramePosition(job, now) == TargetY(job)
  {
  }

  /** From the start time on, every frame lies between the start and the target. */
  lemma FramesBetweenStartAndTarget(job: ScrollJob, now: real)
    requires job.startTime <= now
    ensures job.distance >= 0.0 ==> job.startY <= FramePosition(job, now) <= TargetY(job)
    ensures job.distance <= 0.0 ==> TargetY(job) <= FramePosition(job, now) <= job.startY
  {
    var e := EaseInOutQuart(Progress(job, now));
    EaseBounds(Progress(job, now));
    assert FramePosition(job, now) == job.startY + job.distance * e;
    if job.distance >= 0.0 {
      MulLeft(job.distance, 0.0, e);
      MulLeft(job.distance, e, 1.0);
    } else {
      MulLeft(-job.distance, 0.0, e);
      MulLeft(-job.distance, e, 1.0);
    }
  }

  /** Later frames of one animation never move back towards the start. */
  lemma FramesAdvance(job: ScrollJob, t1: real, t2: real)
    requires job.startTime <= t1 <= t2
    ensures job.distance >= 0.0 ==> FramePosition(job, t1) <= FramePosition(job, t2)
    ensures job.distance <= 0.0 ==> FramePosition(job, t2) <= FramePosition(job, t1)
  {
    ProgressMonotone(job, t1, t2);
    EaseMonotone(Progress(job, t1), Progress(job, t2));
    ScaleMonotone(job.startY, job.distance, EaseInOutQuart(Progress(job, t1)), EaseInOutQuart(Progress(job, t2)));
  }

  /** Progress never decreases with time. */
  lemma ProgressMonotone(job: ScrollJob, t1: real, t2: real)
    requires t1 <= t2
    ensures Progress(job, t1) <= Progress(job, t2)
  {
    assert (t1 - job.startTime) / Duration <= (t2 - job.startTime) / Duration;
  }

  /** Moving further along the curve moves the offset further towards the target. */
  lemma ScaleMonotone(y: real, d: real, e1: real, e2: real)
    requires e1 <= e2
    ensures d >= 0.0 ==> y + d * e1 <= y + d * e2
    ensures d <= 0.0 ==> y + d * e2 <= y + d * e1
  {
    if d >= 0.0 {
      MulLeft(d, e1, e2);
    } else {
      MulLeft(-d, e1, e2);
    }
  }

  /** The jobs whose callback asks for another frame after running at `now`. */
  function Continuing(jobs: seq<ScrollJob>, now: real): (r: seq<ScrollJob>)
    ensures |r| <= |jobs|
    decreases |jobs|
  {
    if jobs == [] then []
    else
      var last := jobs[|jobs| - 1];
      Continuing(jobs[..|jobs| - 1], now) + (if Progress(last, now) < 1.0 then [last] else [])
  }

  /** A job keeps its frame request exactly while its duration has not run out. */
  lemma {:induction false} ContinuingMembers(jobs: seq<ScrollJob>, now: real, job: ScrollJob)
    ensures job in Continuing(jobs, now) <==> job in jobs && now < job.startTime + Duration
    decreases |jobs|
  {
    if jobs != [] {
      var init := jobs[..|jobs| - 1];
      ContinuingMembers(init, now, job);
      assert jobs == init + [jobs[|jobs| - 1]];
    }
  }

  /** The window's vertical scroll offset and the step callbacks waiting for
      the next animation frame (several when a new scroll starts before the
      previous one has finished). */
  class Viewport {
    var scrollY: real
    var pending: seq<ScrollJob>

    constructor (y: real)
      ensures scrollY == y && pending == []
    {
      scrollY := y;
      pending := [];
    }

    /** `scrollToSection`: with no target element nothing happens; otherwise
        one step callback is scheduled and the window does not move yet. */
    method ScrollToSection(targetTop: Option<real>, navbarHeight: Option<real>, now: real)
      modifies this
      ensures scrollY == old(scrollY)
      ensures targetTop.None? ==> pending == old(pending)
      ensures targetTop.Some? ==> pending == old(pending) + [PlanScroll(targetTop, navbarHeight, scrollY, now).value]
    {
      var job := PlanScroll(targetTop, navbarHeight, scrollY, now);
      if job.Some? {
        pending := pending + [job.value];
      }
    }

    /** One animation frame at timestamp `now`: every waiting step callback
        runs in scheduling order, writes its position, and asks for another
        frame while its progress is below 1. The last writer wins. */
    method AnimationFrame(now: real)
      modifies this
      ensures old(pending) == [] ==> scrollY == old(scrollY)
      ensures old(pending) != [] ==> scrollY == FramePosition(old(pending)[|old(pending)| - 1], now)
      ensures pending == Continuing(old(pending), now)
    {
      var callbacks := pending;
      pending := [];
      var i := 0;
      while i < |callbacks|
        invariant 0 <= i <= |callbacks|
        invariant pending == Continuing(callbacks[..i], now)
        invariant i == 0 ==> scrollY == old(scrollY)
        invariant i > 0 ==> scrollY == FramePosition(callbacks[i - 1], now)
      {
        var job := callbacks[i];
        var progress := Progress(job, now);
        scrollY := FramePosition(job, now);
        if progress < 1.0 {
          pending := pending + [job];
        }
        assert callbacks[..i + 1][..i] == callbacks[..i];
        assert callbacks[..i + 1][i] == job;
        assert pending == Continuing(callbacks[..i + 1], now);
        i := i + 1;
      }
      assert callbacks[..i] == callbacks;
    }
  }

  /** The worked example: from 1000 by -300, half-way through the duration
      the window is at 850. */
  lemma HalfwayExample()
    ensures FramePosition(ScrollJob(1000.0, -300.0, 0.0), 350.0) == 850.0
  {
  }
}
