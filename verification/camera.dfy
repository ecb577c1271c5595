/**
 * The virtual camera of sdl.cpp: a pan (x, y) and a zoom (z), each with a target,
 * the value a transition started from ("old") and the value currently shown.
 * A change of target starts a transition of VIRTUAL_CAMERA_ANIM_DURATION ms, and the
 * per-frame loop manager interpolates linearly towards the target, then snaps to it.
 */
module Camera {
  import opened U32

  /** VIRTUAL_CAMERA_ANIM_DURATION (ms). */
  const TransitionDuration: u32 := 150

  /** C's conversion of a floating value to int: truncation toward zero. */
  function Trunc(r: real): (n: int)
    ensures r >= 0.0 ==> n as real <= r < n as real + 1.0
    ensures r < 0.0 ==> n as real - 1.0 < r <= n as real
  {
    if r >= 0.0 then r.Floor else -((-r).Floor)
  }

  /** Truncation of a value lying between two integers stays between them. */
  lemma TruncBetween(r: real, lo: int, hi: int)
    requires lo as real <= r <= hi as real
    ensures lo <= Trunc(r) <= hi
  {
  }

  /** Linear interpolation of the zoom between `from` and `to` after `elapsed` ms. */
  function InterpolateZoom(from: real, to: real, elapsed: u32): real
  {
    from + (to - from) * elapsed as real / TransitionDuration as real
  }

  /** Interpolated pan coordinate, truncated to int as the source's cast does. */
  function Interpolate(from: int, to: int, elapsed: u32): int
  {
    Trunc(InterpolateZoom(from as real, to as real, elapsed))
  }

  function MinR(a: real, b: real): real { if a <= b then a else b }
  function MaxR(a: real, b: real): real { if a <= b then b else a }

  /** Inside the window the interpolated zoom lies between the start and the target. */
  lemma InterpolateZoomBetween(from: real, to: real, elapsed: u32)
    requires elapsed <= TransitionDuration
    ensures MinR(from, to) <= InterpolateZoom(from, to, elapsed) <= MaxR(from, to)
    ensures elapsed == 0 ==> InterpolateZoom(from, to, elapsed) == from
    ensures elapsed == TransitionDuration ==> InterpolateZoom(from, to, elapsed) == to
  {
    var t := elapsed as real / TransitionDuration as real;
    var step := (to - from) * t;
    assert 0.0 <= t <= 1.0;
    assert InterpolateZoom(from, to, elapsed) == from + step;
    ScaleByFraction(to - from, t, step);
  }

  /** A fraction of a signed distance lies between 0 and that distance. */
  lemma ScaleByFraction(a: real, t: real, p: real)
    requires 0.0 <= t <= 1.0 && p == a * t
    ensures a >= 0.0 ==> 0.0 <= p <= a
    ensures a < 0.0 ==> a <= p <= 0.0
  {
    var u := 1.0 - t;
    assert a * u == a - p;
    if a >= 0.0 {
      NonNegProduct(a, t);
      NonNegProduct(a, u);
    } else {
      assert (-a) * t == -p;
      assert (-a) * u == p - a;
      NonNegProduct(-a, t);
      NonNegProduct(-a, u);
    }
  }

  lemma NonNegProduct(x: real, y: real)
    requires x >= 0.0 && y >= 0.0
    ensures x * y >= 0.0
  {
  }

  /** Inside the window the interpolated pan lies between the start and the target. */
  lemma InterpolateBetween(from: int, to: int, elapsed: u32)
    requires elapsed <= TransitionDuration
    ensures var v := Interpolate(from, to, elapsed);
      (if from <= to then from <= v <= to else to <= v <= from) &&
      (elapsed == 0 ==> v == from) &&
      (elapsed == TransitionDuration ==> v == to)
  {
    InterpolateZoomBetween(from as real, to as real, elapsed);
    if from <= to {
      TruncBetween(InterpolateZoom(from as real, to as real, elapsed), from, to);
    } else {
      TruncBetween(InterpolateZoom(from as real, to as real, elapsed), to, from);
    }
  }

  /** The whole camera state: the file-scope statics of sdl.cpp that the camera owns. */
  datatype View = View(
    targetX: int, targetY: int, targetZ: real,
    oldX: int, oldY: int, oldZ: real,
    currentX: int, currentY: int, currentZ: real,
    tick: u32, globalTime: u32)

  /** The statics' initial values: pan 0, zoom 1.0, no transition. */
  const Initial := View(0, 0, 1.0, 0, 0, 1.0, 0, 0, 1.0, 0, 0)

  /** sdl_set_virtual_x: the shown value becomes the start; a new target restarts the transition. */
  function SetXStep(v: View, x: int): (w: View)
    ensures w.oldX == v.currentX
    ensures x == v.targetX ==> w == v.(oldX := v.currentX)
    ensures x != v.targetX ==> w.targetX == x && w.tick == v.globalTime
    ensures w.(oldX := v.oldX, targetX := v.targetX, tick := v.tick) == v
  {
    var w := v.(oldX := v.currentX);
    if x != v.targetX then w.(targetX := x, tick := v.globalTime) else w
  }

  /** sdl_set_virtual_y. */
  function SetYStep(v: View, y: int): (w: View)
    ensures w.oldY == v.currentY
    ensures y == v.targetY ==> w == v.(oldY := v.currentY)
    ensures y != v.targetY ==> w.targetY == y && w.tick == v.globalTime
    ensures w.(oldY := v.oldY, targetY := v.targetY, tick := v.tick) == v
  {
    var w := v.(oldY := v.currentY);
    if y != v.targetY then w.(targetY := y, tick := v.globalTime) else w
  }

  /** sdl_set_virtual_z: a redundant zoom leaves every field, the start included, untouched. */
  function SetZStep(v: View, z: real): (w: View)
    ensures z == v.targetZ ==> w == v
    ensures z != v.targetZ ==> w.targetZ == z && w.oldZ == v.currentZ && w.tick == v.globalTime
    ensures w.(oldZ := v.oldZ, targetZ := v.targetZ, tick := v.tick) == v
  {
    if z != v.targetZ then v.(oldZ := v.currentZ, targetZ := z, tick := v.globalTime) else v
  }

  /** sdl_force_virtual_x: target, start and shown value all jump to x. */
  function ForceXStep(v: View, x: int): (w: View)
    ensures w.targetX == w.oldX == w.currentX == x
    ensures w.(targetX := v.targetX, oldX := v.oldX, currentX := v.currentX) == v
  {
    v.(targetX := x, currentX := x, oldX := x)
  }

  function ForceYStep(v: View, y: int): (w: View)
    ensures w.targetY == w.oldY == w.currentY == y
    ensures w.(targetY := v.targetY, oldY := v.oldY, currentY := v.currentY) == v
  {
    v.(targetY := y, currentY := y, oldY := y)
  }

  function ForceZStep(v: View, z: real): (w: View)
    ensures w.targetZ == w.oldZ == w.currentZ == z
    ensures w.(targetZ := v.targetZ, oldZ := v.oldZ, currentZ := v.currentZ) == v
  {
    v.(targetZ := z, currentZ := z, oldZ := z)
  }

  /** True while the transition started at `tick` is still running at `now` (Uint32 comparison). */
  predicate InWindow(tick: u32, now: u32)
  {
    Add32(tick, TransitionDuration) > now
  }

  /** sdl_loop_manager: record the clock, then interpolate inside the window or snap after it. */
  function LoopStep(v: View, now: u32): (w: View)
    ensures w.globalTime == now && w.tick == v.tick
    ensures w.targetX == v.targetX && w.targetY == v.targetY && w.targetZ == v.targetZ
  {
    if InWindow(v.tick, now) then
      var e := Sub32(now, v.tick);
      v.(globalTime := now,
         currentX := Interpolate(v.oldX, v.targetX, e),
         currentY := Interpolate(v.oldY, v.targetY, e),
         currentZ := InterpolateZoom(v.oldZ, v.targetZ, e))
    else
      v.(globalTime := now,
         oldX := v.targetX, currentX := v.targetX,
         oldY := v.targetY, currentY := v.targetY,
         oldZ := v.targetZ, currentZ := v.targetZ)
  }

  /**
   * With a clock that has not run behind the transition start, every shown value lies
   * between its start and its target, and equals the target once the window is over.
   */
  lemma LoopStepBounds(v: View, now: u32)
    requires v.tick <= now
    ensures var w := LoopStep(v, now);
      (if v.oldX <= v.targetX then v.oldX <= w.currentX <= v.targetX else v.targetX <= w.currentX <= v.oldX) &&
      (if v.oldY <= v.targetY then v.oldY <= w.currentY <= v.targetY else v.targetY <= w.currentY <= v.oldY) &&
      MinR(v.oldZ, v.targetZ) <= w.currentZ <= MaxR(v.oldZ, v.targetZ) &&
      (v.tick + TransitionDuration <= now ==>
        w.currentX == v.targetX && w.currentY == v.targetY && w.currentZ == v.targetZ)
  {
    if InWindow(v.tick, now) {
      var e := Sub32(now, v.tick);
      InterpolateBetween(v.oldX, v.targetX, e);
      InterpolateBetween(v.oldY, v.targetY, e);
      InterpolateZoomBetween(v.oldZ, v.targetZ, e);
    }
  }

  /** A forced coordinate stays put on every later frame until its target is set again. */
  lemma ForcedStaysPut(v: View, x: int, now: u32)
    ensures LoopStep(ForceXStep(v, x), now).currentX == x
  {
    if InWindow(v.tick, now) {
      var e := Sub32(now, v.tick);
      assert InterpolateZoom(x as real, x as real, e) == x as real;
    }
  }

  /** The camera statics, updated in place by the setters and the loop manager. */
  class Camera {
    var targetX: int
    var targetY: int
    var targetZ: real
    var oldX: int
    var oldY: int
    var oldZ: real
    var currentX: int
    var currentY: int
    var currentZ: real
    var tick: u32
    var globalTime: u32

    function State(): View
      reads this
    {
      View(targetX, targetY, targetZ, oldX, oldY, oldZ, currentX, currentY, currentZ, tick, globalTime)
    }

    constructor()
      ensures State() == Initial
    {
      targetX, targetY, targetZ := 0, 0, 1.0;
      oldX, oldY, oldZ := 0, 0, 1.0;
      currentX, currentY, currentZ := 0, 0, 1.0;
      tick, globalTime := 0, 0;
    }

    method SetX(x: int)
      modifies this
      ensures State() == SetXStep(old(State()), x)
    {
      oldX := currentX;
      if x != targetX {
        targetX := x;
        tick := globalTime;
      }
    }

    method SetY(y: int)
      modifies this
      ensures State() == SetYStep(old(State()), y)
    {
      oldY := currentY;
      if y != targetY {
        targetY := y;
        tick := globalTime;
      }
    }

    method SetZ(z: real)
      modifies this
      ensures State() == SetZStep(old(State()), z)
    {
      if z != targetZ {
        oldZ := currentZ;
        targetZ := z;
        tick := globalTime;
      }
    }

    method ForceX(x: int)
      modifies this
      ensures State() == ForceXStep(old(State()), x)
    {
      targetX := x;
      currentX := x;
      oldX := x;
    }

    method ForceY(y: int)
      modifies this
      ensures State() == ForceYStep(old(State()), y)
    {
      targetY := y;
      currentY := y;
      oldY := y;
    }

    method ForceZ(z: real)
      modifies this
      ensures State() == ForceZStep(old(State()), z)
    {
      targetZ := z;
      currentZ := z;
      oldZ := z;
    }

    /** sdl_loop_manager, `now` being the SDL_GetTicks() reading of this frame. */
    method LoopManager(now: u32)
      modifies this
      ensures State() == LoopStep(old(State()), now)
    {
      globalTime := now;
      if Add32(tick, TransitionDuration) > globalTime {
        var e := Sub32(globalTime, tick);
        currentX := Interpolate(oldX, targetX, e);
        currentY := Interpolate(oldY, targetY, e);
        currentZ := InterpolateZoom(oldZ, targetZ, e);
      } else {
        oldX := targetX;
        currentX := targetX;
        oldY := targetY;
        currentY := targetY;
        oldZ := targetZ;
        currentZ := targetZ;
      }
    }
  }
}
