/**
 * The plain animation records: anim_t of the C++ loaders (anim.cpp, sdl.cpp) and the
 * older anim_t of anim.h with its playback cursor (anim.c, sdl.c).
 */
module AnimRecord {
  import opened U32
  import opened Media

  /** anim_t as anim.cpp fills it: frame count, texture and delay arrays, size, total duration. */
  class AnimT {
    var numFrame: int
    var tex: array<Texture>
    var w: int
    var h: int
    var delay: array<u32>
    var totalDuration: u32

    /** malloc of the record cleared by memset, with `slots` texture and delay slots. */
    constructor(slots: nat)
      ensures numFrame == 0 && w == 0 && h == 0 && totalDuration == 0
      ensures fresh(tex) && fresh(delay) && tex.Length == slots && delay.Length == slots
      ensures forall i | 0 <= i < slots :: tex[i] == NullTexture && delay[i] == 0
    {
      numFrame := 0;
      tex := new Texture[slots](_ => NullTexture);
      w := 0;
      h := 0;
      delay := new u32[slots](_ => 0);
      totalDuration := 0;
    }
  }

  /**
   * sdl_get_minimal_anim: one empty 1x1 frame shown for no time. It is what a caller
   * draws when it has no animation of its own.
   */
  method MinimalAnim() returns (a: AnimT)
    ensures fresh(a) && fresh(a.tex) && fresh(a.delay)
    ensures a.numFrame == 1 && a.tex.Length == 1 && a.delay.Length == 1
    ensures a.tex[0] == Texture(1, 1, Unwritten) && a.w == 1 && a.h == 1
    ensures a.delay[0] == 0 && a.totalDuration == 0
  {
    a := new AnimT(1);
    a.numFrame := 1;
    a.tex[0] := Texture(1, 1, Unwritten);
    a.w := 1;
    a.h := 1;
    a.delay[0] := 0;
    a.totalDuration := 0;
  }

  /** anim_t of anim.h: frames and delays plus the frame being shown and when it started. */
  class LegacyAnimT {
    var numFrame: int
    var tex: array<Texture>
    var currentFrame: int
    var w: int
    var h: int
    var delay: array<u32>
    var prevTime: u32

    constructor(slots: nat)
      ensures numFrame == 0 && currentFrame == 0 && w == 0 && h == 0 && prevTime == 0
      ensures fresh(tex) && fresh(delay) && tex.Length == slots && delay.Length == slots
      ensures forall i | 0 <= i < slots :: tex[i] == NullTexture && delay[i] == 0
    {
      numFrame := 0;
      tex := new Texture[slots](_ => NullTexture);
      currentFrame := 0;
      w := 0;
      h := 0;
      delay := new u32[slots](_ => 0);
      prevTime := 0;
    }

    /** anim_reset_anim: playback starts over at frame 0 with no start time. */
    method Reset()
      modifies this
      ensures prevTime == 0 && currentFrame == 0
      ensures numFrame == old(numFrame) && tex == old(tex) && w == old(w) && h == old(h) && delay == old(delay)
    {
      prevTime := 0;
      currentFrame := 0;
    }
  }
}
