/**
 * Decoded frames and the C++ animation object (SiAnim.cpp; Anim.cpp is the same
 * class under another name).
 */
module Media {
  import opened U32

  /**
   * One canvas pixel. The loaders write the bytes A, B, G, R at increasing addresses
   * of a 32-bit RGBA surface, i.e. the Uint32 R<<24 | G<<16 | B<<8 | A.
   */
  type Pixel = u32

  type byte = x: int | 0 <= x < 256

  function Rgba(r: byte, g: byte, b: byte, a: byte): (p: Pixel)
    ensures p / 0x100_0000 == r && p % 0x100 == a
  {
    r * 0x100_0000 + g * 0x1_0000 + b * 0x100 + a
  }

  /** Fully transparent black: what a zeroed canvas holds. */
  const Transparent: Pixel := 0

  /** A surface's pixels, row by row (row y, column x sits at byte offset (x + y * width) * 4). */
  type Grid = seq<seq<Pixel>>

  /** True when every one of the h rows of the grid holds w pixels. */
  predicate IsGrid(c: Grid, w: int, h: int)
  {
    |c| == h && forall y | 0 <= y < |c| :: |c[y]| == w
  }

  /**
   * What a texture shows: a known pixel grid, an image decoded by a library outside
   * the model, or nothing written yet (a texture created empty).
   */
  datatype Content = Pixels(grid: Grid) | Decoded(id: nat) | Unwritten

  /** An SDL texture handle; NullTexture is a failed creation (a null pointer). */
  datatype Texture = NullTexture | Texture(w: nat, h: nat, content: Content)

  /**
   * What libpng_load_texture reports: failure (a null texture), or a texture decoded from
   * the file together with its size. A failure is taken to be one of the early exits (the
   * file or libpng setup fails), which leave the size outputs as they were.
   */
  datatype PngResult = PngFailed | PngLoaded(id: nat, width: nat, height: nat)

  function PngTexture(p: PngResult): (t: Texture)
    ensures t.NullTexture? <==> p.PngFailed?
    ensures p.PngLoaded? ==> QueryWidth(t) == p.width && QueryHeight(t) == p.height
  {
    if p.PngFailed? then NullTexture else Texture(p.width, p.height, Decoded(p.id))
  }

  /** Width SDL_QueryTexture reports; on a null texture the query fails and the caller's 0 stays. */
  function QueryWidth(t: Texture): nat
  {
    if t.NullTexture? then 0 else t.w
  }

  function QueryHeight(t: Texture): nat
  {
    if t.NullTexture? then 0 else t.h
  }

  /** SiAnim: frames, the size of the animation, per-frame delays and the cached total duration. */
  class SiAnim {
    var textures: seq<Texture>
    var width: int
    var height: int
    var delays: seq<u32>
    var totalDuration: u32

    /** The animation is at least as large as every texture pushed since its size was last set. */
    ghost predicate CoversTextures(from: nat)
      reads this
    {
      forall i | from <= i < |textures| :: QueryWidth(textures[i]) <= width && QueryHeight(textures[i]) <= height
    }

    constructor()
      ensures textures == [] && delays == [] && width == 0 && height == 0 && totalDuration == 0
    {
      textures := [];
      width := 0;
      height := 0;
      delays := [];
      totalDuration := 0;
    }

    method SetWidth(w: int)
      modifies this
      ensures width == w
      ensures textures == old(textures) && height == old(height) && delays == old(delays)
      ensures totalDuration == old(totalDuration)
    {
      width := w;
    }

    method SetHeight(h: int)
      modifies this
      ensures height == h
      ensures textures == old(textures) && width == old(width) && delays == old(delays)
      ensures totalDuration == old(totalDuration)
    {
      height := h;
    }

    /** pushTexture: append the frame and grow the size to cover it; the size never shrinks. */
    method PushTexture(t: Texture)
      modifies this
      ensures textures == old(textures) + [t]
      ensures width == (if old(width) < QueryWidth(t) then QueryWidth(t) else old(width))
      ensures height == (if old(height) < QueryHeight(t) then QueryHeight(t) else old(height))
      ensures delays == old(delays) && totalDuration == old(totalDuration)
      ensures forall from: nat :: old(CoversTextures(from)) && from <= |old(textures)| ==> CoversTextures(from)
    {
      textures := textures + [t];
      var w := QueryWidth(t);
      var h := QueryHeight(t);
      if width < w {
        width := w;
      }
      if height < h {
        height := h;
      }
    }

    /** getTexture: the frame at `index`. */
    function GetTexture(index: int): (t: Texture)
      reads this
      requires 0 <= index < |textures|
      ensures t in textures
    {
      textures[index]
    }

    /** getFrameQty: the number of frames is the number of textures, whatever the delays hold. */
    function FrameQty(): (n: int)
      reads this
      ensures n == |textures|
    {
      |textures|
    }

    method SetTotalDuration(total: u32)
      modifies this
      ensures totalDuration == total
      ensures textures == old(textures) && width == old(width) && height == old(height) && delays == old(delays)
    {
      totalDuration := total;
    }

    /** setDelayArray: the delays are replaced as a whole. */
    method SetDelayArray(d: seq<u32>)
      modifies this
      ensures delays == d
      ensures textures == old(textures) && width == old(width) && height == old(height)
      ensures totalDuration == old(totalDuration)
    {
      delays := d;
    }

    /** pushDelay: one more delay, the frames untouched. */
    method PushDelay(delay: u32)
      modifies this
      ensures delays == old(delays) + [delay]
      ensures textures == old(textures) && width == old(width) && height == old(height)
      ensures totalDuration == old(totalDuration)
    {
      delays := delays + [delay];
    }
  }
}
