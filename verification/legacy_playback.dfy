/**
 * The older, stateful playback of sdl.c: each sdl_blit_anim call shows the current frame
 * of an anim_t and moves its cursor (current_frame, prev_time) on when the frame's delay
 * has elapsed, wrapping over the whole animation or over a [start, end) range.
 */
module LegacyPlayback {
  import opened U32
  import opened AnimRecord

  /** The playback cursor of an anim_t: the frame shown and the tick it started showing (0: not yet). */
  datatype Cursor = Cursor(current: int, prevTime: u32)

  /** The tick from which the shown frame counts: a cursor that has not started counts from now. */
  function Since(c: Cursor, now: u32): u32
  {
    if c.prevTime == 0 then now else c.prevTime
  }

  /** The shown frame's delay is over (the sum is taken modulo 2^32, as Uint32). */
  predicate Due(c: Cursor, delays: seq<u32>, now: u32)
    requires 0 <= c.current < |delays|
  {
    now >= Add32(Since(c, now), delays[c.current])
  }

  /** The range is given: `end` is not the -1 that means "the whole animation". */
  predicate Ranged(end: int)
  {
    end != -1
  }

  /**
   * One sdl_blit_anim call on an animation of n frames: the new cursor, and whether the
   * playback wrapped (the call's return value 1).
   */
  function BlitStep(c: Cursor, delays: seq<u32>, n: int, start: int, end: int, now: u32): (r: (Cursor, bool))
    requires 0 <= c.current < n <= |delays|
    ensures !Ranged(end) ==> 0 <= r.0.current < n
  {
    var since := Since(c, now);
    if !Due(c, delays, now) then (Cursor(c.current, since), false)
    else
      var next := c.current + 1;
      if Ranged(end) then
        if next >= end then (Cursor(start, now), true) else (Cursor(next, now), false)
      else if next >= n then (Cursor(0, now), true)
      else (Cursor(next, now), false)
  }

  /**
   * The outcomes of one call: a frame that is not due stays (with its start tick fixed);
   * a due frame moves on by exactly one and restarts its tick; the call reports a wrap
   * exactly when moving on reaches the end of the range (or of the animation), and a wrap
   * goes back to `start` (or to 0).
   */
  lemma BlitStepOutcomes(c: Cursor, delays: seq<u32>, n: int, start: int, end: int, now: u32)
    requires 0 <= c.current < n <= |delays|
    ensures var (d, wrapped) := BlitStep(c, delays, n, start, end, now);
      var last := if Ranged(end) then end else n;
      (wrapped <==> Due(c, delays, now) && c.current + 1 >= last) &&
      (!Due(c, delays, now) ==> d == Cursor(c.current, Since(c, now))) &&
      (Due(c, delays, now) && !wrapped ==> d == Cursor(c.current + 1, now)) &&
      (wrapped ==> d == Cursor(if Ranged(end) then start else 0, now))
  {
  }

  /** Successive calls at the given ticks. */
  function Play(c: Cursor, delays: seq<u32>, n: int, start: int, end: int, ticks: seq<u32>): (r: Cursor)
    requires 0 <= c.current < n <= |delays|
    requires Ranged(end) ==> 0 <= start < end <= n && start <= c.current < end
    ensures 0 <= r.current < n
    decreases |ticks|
  {
    if ticks == [] then c
    else
      BlitStepStaysInRange(c, delays, n, start, end, ticks[0]);
      Play(BlitStep(c, delays, n, start, end, ticks[0]).0, delays, n, start, end, ticks[1..])
  }

  /** One call keeps the cursor inside the animation, and inside the range [start, end) it plays. */
  lemma BlitStepStaysInRange(c: Cursor, delays: seq<u32>, n: int, start: int, end: int, now: u32)
    requires 0 <= c.current < n <= |delays|
    requires Ranged(end) ==> 0 <= start < end <= n && start <= c.current < end
    ensures var d := BlitStep(c, delays, n, start, end, now).0;
      0 <= d.current < n && (Ranged(end) ==> start <= d.current < end)
  {
  }

  /**
   * Over any number of calls the cursor never leaves the animation, or the range it plays:
   * current_frame always indexes the texture and delay arrays.
   */
  lemma {:induction false} PlayStaysInRange(c: Cursor, delays: seq<u32>, n: int, start: int, end: int, ticks: seq<u32>)
    requires 0 <= c.current < n <= |delays|
    requires Ranged(end) ==> 0 <= start < end <= n && start <= c.current < end
    ensures var r := Play(c, delays, n, start, end, ticks);
      0 <= r.current < n && (Ranged(end) ==> start <= r.current < end)
    decreases |ticks|
  {
    if ticks != [] {
      BlitStepStaysInRange(c, delays, n, start, end, ticks[0]);
      PlayStaysInRange(BlitStep(c, delays, n, start, end, ticks[0]).0, delays, n, start, end, ticks[1..]);
    }
  }

  /**
   * With no delays, every call shows the next frame, cycling through the animation, and
   * reports a wrap exactly on the last frame.
   */
  lemma NoDelayCycles(c: Cursor, delays: seq<u32>, n: int, now: u32)
    requires 0 <= c.current < n <= |delays|
    requires forall i | 0 <= i < n :: delays[i] == 0
    requires c.prevTime <= now
    ensures var (d, wrapped) := BlitStep(c, delays, n, 0, -1, now);
      d.current == (c.current + 1) % n && (wrapped <==> c.current == n - 1)
  {
    assert Add32(Since(c, now), 0) == Since(c, now);
  }

  /**
   * sdl_blit_anim: show the current frame (drawing is outside the model), then move the
   * cursor as BlitStep says; the frames, delays and size are not touched.
   */
  method BlitAnim(anim: LegacyAnimT, start: int, end: int, now: u32) returns (wrapped: bool)
    requires 0 <= anim.currentFrame < anim.numFrame <= anim.delay.Length
    modifies anim
    ensures anim.numFrame == old(anim.numFrame) && anim.tex == old(anim.tex) && anim.delay == old(anim.delay)
    ensures anim.w == old(anim.w) && anim.h == old(anim.h)
    ensures (Cursor(anim.currentFrame, anim.prevTime), wrapped) ==
      BlitStep(Cursor(old(anim.currentFrame), old(anim.prevTime)), anim.delay[..], anim.numFrame, start, end, now)
  {
    if anim.prevTime == 0 {
      anim.prevTime := now;
    }
    if now >= Add32(anim.prevTime, anim.delay[anim.currentFrame]) {
      anim.currentFrame := anim.currentFrame + 1;
      anim.prevTime := now;
      if end != -1 {
        if anim.currentFrame >= end {
          anim.currentFrame := start;
          return true;
        }
      } else {
        if anim.currentFrame >= anim.numFrame {
          anim.currentFrame := 0;
          return true;
        }
      }
    }
    return false;
  }
}
