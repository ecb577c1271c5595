/**
 * The earlier C camera of sdl.c: pan only (no zoom), the setters stamp the
 * transition with the clock themselves, and the loop manager interpolates over
 * VIRTUAL_ANIM_DURATION ms with the same formula as sdl.cpp.
 */
module LegacyCamera {
  import opened U32
  import Camera

  /** The pan statics of sdl.c. */
  datatype LegacyView = LegacyView(
    targetX: int, targetY: int,
    oldX: int, oldY: int,
    currentX: int, currentY: int,
    tick: u32)

  /** sdl_set_virtual_x: only a new target touches the state; the start is the shown value. */
  function SetXStep(v: LegacyView, x: int, now: u32): (w: LegacyView)
    ensures x == v.targetX ==> w == v
    ensures x != v.targetX ==> w == v.(oldX := v.currentX, targetX := x, tick := now)
  {
    if x != v.targetX then v.(oldX := v.currentX, targetX := x, tick := now) else v
  }

  function SetYStep(v: LegacyView, y: int, now: u32): (w: LegacyView)
    ensures y == v.targetY ==> w == v
    ensures y != v.targetY ==> w == v.(oldY := v.currentY, targetY := y, tick := now)
  {
    if y != v.targetY then v.(oldY := v.currentY, targetY := y, tick := now) else v
  }

  function ForceXStep(v: LegacyView, x: int): (w: LegacyView)
    ensures w.targetX == w.oldX == w.currentX == x
    ensures w.(targetX := v.targetX, oldX := v.oldX, currentX := v.currentX) == v
  {
    v.(targetX := x, currentX := x, oldX := x)
  }

  /** sdl_force_virtual_y as written: the start written is the X one, the Y start is left stale. */
  function ForceYAsWritten(v: LegacyView, y: int): (w: LegacyView)
    ensures w.targetY == w.currentY == y && w.oldX == y && w.oldY == v.oldY
    ensures w.(targetY := v.targetY, currentY := v.currentY, oldX := v.oldX) == v
  {
    v.(targetY := y, currentY := y, oldX := y)
  }

  /** sdl_force_virtual_y as evidently intended (and as sdl.cpp writes it). */
  function ForceYStep(v: LegacyView, y: int): (w: LegacyView)
    ensures w.targetY == w.oldY == w.currentY == y
    ensures w.(targetY := v.targetY, oldY := v.oldY, currentY := v.currentY) == v
  {
    v.(targetY := y, currentY := y, oldY := y)
  }

  /** sdl_loop_manager of sdl.c, `now` being the clock read after the frame pacing delay. */
  function LoopStep(v: LegacyView, now: u32): (w: LegacyView)
    ensures w.targetX == v.targetX && w.targetY == v.targetY && w.tick == v.tick
  {
    if Camera.InWindow(v.tick, now) then
      var e := Sub32(now, v.tick);
      v.(currentX := Camera.Interpolate(v.oldX, v.targetX, e),
         currentY := Camera.Interpolate(v.oldY, v.targetY, e))
    else
      v.(oldX := v.targetX, currentX := v.targetX, oldY := v.targetY, currentY := v.targetY)
  }

  /** The shown pan stays between start and target and reaches the target after the window. */
  lemma LoopStepBounds(v: LegacyView, now: u32)
    requires v.tick <= now
    ensures var w := LoopStep(v, now);
      (if v.oldX <= v.targetX then v.oldX <= w.currentX <= v.targetX else v.targetX <= w.currentX <= v.oldX) &&
      (if v.oldY <= v.targetY then v.oldY <= w.currentY <= v.targetY else v.targetY <= w.currentY <= v.oldY) &&
      (v.tick + Camera.TransitionDuration <= now ==> w.currentX == v.targetX && w.currentY == v.targetY)
  {
    if Camera.InWindow(v.tick, now) {
      Camera.InterpolateBetween(v.oldX, v.targetX, Sub32(now, v.tick));
      Camera.InterpolateBetween(v.oldY, v.targetY, Sub32(now, v.tick));
    }
  }

  /**
   * As written, forcing Y during a running transition moves the X pan: a camera resting
   * at x = 0 shows x = 20 on the next frame after sdl_force_virtual_y(40).
   */
  lemma ForceYAsWrittenMovesX()
    ensures var v := LegacyView(0, 0, 0, 0, 0, 0, 1000);
      LoopStep(v, 1075).currentX == 0 &&
      LoopStep(ForceYAsWritten(v, 40), 1075).currentX == 20
  {
    var v := LegacyView(0, 0, 0, 0, 0, 0, 1000);
    assert Camera.InterpolateZoom(0 as real, 0 as real, 75) == 0.0;
    assert Camera.InterpolateZoom(40 as real, 0 as real, 75) == 20.0;
  }

  /** Forcing Y as intended leaves the X pan's course untouched and pins Y to the forced value. */
  lemma ForceYKeepsX(v: LegacyView, y: int, now: u32)
    ensures var w := LoopStep(ForceYStep(v, y), now);
      w.currentX == LoopStep(v, now).currentX && w.oldX == LoopStep(v, now).oldX && w.currentY == y
  {
    if Camera.InWindow(v.tick, now) {
      assert Camera.InterpolateZoom(y as real, y as real, Sub32(now, v.tick)) == y as real;
    }
  }

  /** The pan statics of sdl.c, updated in place. */
  class LegacyCamera {
    var targetX: int
    var targetY: int
    var oldX: int
    var oldY: int
    var currentX: int
    var currentY: int
    var tick: u32

    function State(): LegacyView
      reads this
    {
      LegacyView(targetX, targetY, oldX, oldY, currentX, currentY, tick)
    }

    constructor()
      ensures State() == LegacyView(0, 0, 0, 0, 0, 0, 0)
    {
      targetX, targetY, oldX, oldY, currentX, currentY, tick := 0, 0, 0, 0, 0, 0, 0;
    }

    /** `now` is the SDL_GetTicks() reading the setter stamps the transition with. */
    method SetX(x: int, now: u32)
      modifies this
      ensures State() == SetXStep(old(State()), x, now)
    {
      if x != targetX {
        oldX := currentX;
        targetX := x;
        tick := now;
      }
    }

    method SetY(y: int, now: u32)
      modifies this
      ensures State() == SetYStep(old(State()), y, now)
    {
      if y != targetY {
        oldY := currentY;
        targetY := y;
        tick := now;
      }
    }

    method ForceX(x: int)
      modifies this
      ensures State() == ForceXStep(old(State()), x)
    {
      targetX := x;
      currentX := x;
      oldX := x;
    }

    /**
     * sdl_force_virtual_y as evidently intended: the Y start is pinned. The line of
     * sdl.c that writes the X start instead is ForceYAsWritten.
     */
    method ForceY(y: int)
      modifies this
      ensures State() == ForceYStep(old(State()), y)
    {
      targetY := y;
      currentY := y;
      oldY := y;
    }

    method LoopManager(now: u32)
      modifies this
      ensures State() == LoopStep(old(State()), now)
    {
      if Add32(tick, Camera.TransitionDuration) > now {
        var e := Sub32(now, tick);
        currentX := Camera.Interpolate(oldX, targetX, e);
        currentY := Camera.Interpolate(oldY, targetY, e);
      } else {
        oldX := targetX;
        currentX := targetX;
        oldY := targetY;
        currentY := targetY;
      }
    }
  }
}
