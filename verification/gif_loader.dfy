/**
 * The GIF loaders as they run: a canvas surface written in place pixel by pixel, a
 * second surface for restore-to-previous, and the frames handed to the animation
 * object one image at a time (media/si_gif.cpp for SiAnim, anim.cpp and anim.c for
 * anim_t). Each is proved to emit exactly what the compositor functions of module Gif
 * describe.
 */
module GifLoader {
  import opened Wrappers
  import opened U32
  import opened Media
  import opened Gif
  import opened AnimRecord

  /** The pixels of a surface, row by row (Length0 rows of Length1 pixels). */
  function Snapshot(a: array2<Pixel>): (c: Grid)
    reads a
    ensures IsGrid(c, a.Length1, a.Length0)
    ensures forall y, x | 0 <= y < a.Length0 && 0 <= x < a.Length1 :: c[y][x] == a[y, x]
  {
    seq(a.Length0, y requires 0 <= y < a.Length0 reads a =>
      seq(a.Length1, x requires 0 <= x < a.Length1 reads a => a[y, x]))
  }

  lemma SnapshotIs(a: array2<Pixel>, c: Grid)
    requires IsGrid(c, a.Length1, a.Length0)
    requires forall y, x | 0 <= y < a.Length0 && 0 <= x < a.Length1 :: a[y, x] == c[y][x]
    ensures Snapshot(a) == c
  {
    var s := Snapshot(a);
    forall y | 0 <= y < a.Length0
      ensures s[y] == c[y]
    {
    }
  }

  /** A surface of the screen's size. */
  predicate Fits(a: array2<Pixel>, g: GifFile)
  {
    a.Length0 == g.height && a.Length1 == g.width
  }

  /** The raster loop: every pixel of the image's rectangle not see-through gets its palette colour, opaque. */
  method DrawImage(canvas: array2<Pixel>, img: Image, pal: seq<Color>, gce: Gce)
    requires Paintable(img, pal)
    requires 0 <= img.left && 0 <= img.top
    requires img.left + img.width <= canvas.Length1 && img.top + img.height <= canvas.Length0
    modifies canvas
    ensures Snapshot(canvas) == Drawn(old(Snapshot(canvas)), img, pal, gce)
  {
    ghost var before := Snapshot(canvas);
    var y := 0;
    while y < img.height
      invariant 0 <= y <= img.height
      invariant forall r, c | 0 <= r < canvas.Length0 && 0 <= c < canvas.Length1 ::
        canvas[r, c] == if InRect(img, c, r) && r < img.top + y then Painted(before[r][c], img, pal, gce, c, r) else before[r][c]
    {
      DrawRow(canvas, img, pal, gce, y, before);
      y := y + 1;
    }
    SnapshotIs(canvas, Drawn(before, img, pal, gce));
  }

  /** Row y of the image drawn onto a canvas whose rows above it are drawn already. */
  method DrawRow(canvas: array2<Pixel>, img: Image, pal: seq<Color>, gce: Gce, y: int, ghost before: Grid)
    requires Paintable(img, pal)
    requires 0 <= img.left && 0 <= img.top && 0 <= y < img.height
    requires img.left + img.width <= canvas.Length1 && img.top + img.height <= canvas.Length0
    requires IsGrid(before, canvas.Length1, canvas.Length0)
    requires forall r, c | 0 <= r < canvas.Length0 && 0 <= c < canvas.Length1 ::
      canvas[r, c] == if InRect(img, c, r) && r < img.top + y then Painted(before[r][c], img, pal, gce, c, r) else before[r][c]
    modifies canvas
    ensures forall r, c | 0 <= r < canvas.Length0 && 0 <= c < canvas.Length1 ::
      canvas[r, c] == if InRect(img, c, r) && r < img.top + y + 1 then Painted(before[r][c], img, pal, gce, c, r) else before[r][c]
  {
    var x := 0;
    while x < img.width
      invariant 0 <= x <= img.width
      invariant forall r, c | 0 <= r < canvas.Length0 && 0 <= c < canvas.Length1 ::
        canvas[r, c] ==
          if InRect(img, c, r) && (r < img.top + y || (r == img.top + y && c < img.left + x))
          then Painted(before[r][c], img, pal, gce, c, r) else before[r][c]
    {
      RasterIndexBound(x, y, img.width, img.height);
      var col := img.raster[x + y * img.width];
      assert col == RasterAt(img, x + img.left, y + img.top);
      if col == gce.transparentColor && gce.transparent {
        // the transparent colour leaves the canvas as it is
      } else {
        canvas[y + img.top, x + img.left] := Opaque(pal[col]);
      }
      x := x + 1;
    }
  }

  /** Restore to background: every pixel of the image's rectangle becomes transparent. */
  method ClearRect(canvas: array2<Pixel>, img: Image)
    requires 0 <= img.left && 0 <= img.top && 0 <= img.width && 0 <= img.height
    requires img.left + img.width <= canvas.Length1 && img.top + img.height <= canvas.Length0
    modifies canvas
    ensures Snapshot(canvas) == Cleared(old(Snapshot(canvas)), img)
  {
    ghost var before := Snapshot(canvas);
    var y := 0;
    while y < img.height
      invariant 0 <= y <= img.height
      invariant forall r, c | 0 <= r < canvas.Length0 && 0 <= c < canvas.Length1 ::
        canvas[r, c] == if InRect(img, c, r) && r < img.top + y then Transparent else before[r][c]
    {
      var x := 0;
      while x < img.width
        invariant 0 <= x <= img.width
        invariant forall r, c | 0 <= r < canvas.Length0 && 0 <= c < canvas.Length1 ::
          canvas[r, c] ==
            if InRect(img, c, r) && (r < img.top + y || (r == img.top + y && c < img.left + x))
            then Transparent else before[r][c]
      {
        canvas[y + img.top, x + img.left] := Transparent;
        x := x + 1;
      }
      y := y + 1;
    }
    SnapshotIs(canvas, Cleared(before, img));
  }

  /** memcpy of one surface onto another of the same size. */
  method CopySurface(dst: array2<Pixel>, src: array2<Pixel>)
    requires dst != src && dst.Length0 == src.Length0 && dst.Length1 == src.Length1
    modifies dst
    ensures Snapshot(dst) == Snapshot(src)
  {
    forall y, x | 0 <= y < dst.Length0 && 0 <= x < dst.Length1 {
      dst[y, x] := src[y, x];
    }
    SnapshotIs(dst, Snapshot(src));
  }

  /** memset of a surface to zero. */
  method ZeroSurface(a: array2<Pixel>)
    modifies a
    ensures Snapshot(a) == Blank(a.Length1, a.Length0)
  {
    forall y, x | 0 <= y < a.Length0 && 0 <= x < a.Length1 {
      a[y, x] := Transparent;
    }
    SnapshotIs(a, Blank(a.Length1, a.Length0));
  }

  /** The extension loop of one image: each GCE overwrites the values it carries. */
  method ReadExtensions(gce: Gce, exts: seq<ExtensionBlock>) returns (r: Gce)
    requires GcesReadable(exts)
    ensures r == ReadGces(gce, exts)
  {
    r := gce;
    var j := 0;
    while j < |exts|
      invariant 0 <= j <= |exts|
      invariant GcesReadable(exts[..j]) && r == ReadGces(gce, exts[..j])
    {
      assert exts[..j + 1][..j] == exts[..j];
      var e := exts[j];
      if e.code == GraphicsControl {
        var transparent := e.bytes[0] % 2 == 1;
        var delay := (e.bytes[1] as int + e.bytes[2] as int * 256) * 10;
        if delay == 0 {
          delay := DefaultDelay;
        }
        r := Gce(transparent, if transparent then e.bytes[3] else r.transparentColor, (e.bytes[0] / 4) % 8, delay);
      }
      j := j + 1;
    }
    assert exts[..|exts|] == exts;
  }

  /**
   * One turn of the image loop of media/si_gif.cpp and anim.cpp: read the GCEs, snapshot
   * for restore-to-previous, draw unless the image before was "do not dispose", take the
   * frame, then dispose. The surfaces end as the compositor's next state.
   */
  method CompositeImage(canvas: array2<Pixel>, prev: array2<Pixel>, g: GifFile, img: Image,
                        allowDraw: bool, gce: Gce)
    returns (frame: Grid, nextGce: Gce, nextAllowDraw: bool)
    requires WellFormed(g) && ImageWellFormed(g, img)
    requires canvas != prev && Fits(canvas, g) && Fits(prev, g)
    modifies canvas, prev
    ensures var st := Compositor(old(Snapshot(canvas)), old(Snapshot(prev)), allowDraw, gce);
      frame == Shown(st, g, img) && nextGce == GceFor(st, g, img) &&
      StepWith(st, g, img, true) == Compositor(Snapshot(canvas), Snapshot(prev), nextAllowDraw, nextGce)
  {
    ghost var st := Compositor(Snapshot(canvas), Snapshot(prev), allowDraw, gce);
    nextGce := ReadExtensions(gce, img.extensions);
    if nextGce.disposal == DisposePrevious {
      CopySurface(prev, canvas);
    }
    if allowDraw {
      DrawImage(canvas, img, Palette(g, img), nextGce);
    }
    frame := Snapshot(canvas);
    nextAllowDraw := true;
    if nextGce.disposal == DisposeDoNot {
      nextAllowDraw := false;
    } else if nextGce.disposal == DisposeBackground {
      ClearRect(canvas, img);
    } else if nextGce.disposal == DisposePrevious {
      CopySurface(canvas, prev);
    }
  }

  /** SDL_CreateRGBSurface of the screen's size, cleared. */
  method NewSurface(g: GifFile) returns (a: array2<Pixel>)
    requires WellFormed(g)
    ensures fresh(a) && Fits(a, g) && Snapshot(a) == Blank(g.width, g.height)
  {
    a := new Pixel[g.height, g.width]((_, _) => Transparent);
    SnapshotIs(a, Blank(g.width, g.height));
  }

  /** One turn of anim.c's image loop: read the GCEs, clear on a restore disposal, draw, take the frame. */
  method LegacyCompositeImage(canvas: array2<Pixel>, g: GifFile, img: Image, gce: Gce)
    returns (frame: Grid, nextGce: Gce)
    requires WellFormed(g) && ImageWellFormed(g, img) && Fits(canvas, g)
    modifies canvas
    ensures var st := LegacyCompositor(old(Snapshot(canvas)), gce);
      nextGce == ReadGces(gce, img.extensions) && frame == LegacyShown(st, g, img) && Snapshot(canvas) == frame
  {
    nextGce := ReadExtensions(gce, img.extensions);
    if nextGce.disposal == DisposeBackground {
      ZeroSurface(canvas);
    }
    if nextGce.disposal == DisposePrevious {
      ZeroSurface(canvas);
    }
    DrawImage(canvas, img, Palette(g, img), nextGce);
    frame := Snapshot(canvas);
  }

  /** What DGifOpenFileName and DGifSlurp leave the loader with. */
  datatype GifSource = OpenFailed | SlurpFailed | ErrorState | Slurped(gif: GifFile)

  /** A frame as a texture: the screen's size, the canvas pixels. */
  function FrameTexture(g: GifFile, frame: Grid): Texture
    requires WellFormed(g)
  {
    Texture(g.width, g.height, Pixels(frame))
  }

  function FrameTextures(g: GifFile, frames: seq<Grid>): (r: seq<Texture>)
    requires WellFormed(g)
    ensures |r| == |frames| && forall i | 0 <= i < |frames| :: r[i] == FrameTexture(g, frames[i])
  {
    if frames == [] then [] else FrameTextures(g, frames[..|frames| - 1]) + [FrameTexture(g, frames[|frames| - 1])]
  }

  lemma FrameTexturesSnoc(g: GifFile, frames: seq<Grid>, f: Grid)
    requires WellFormed(g)
    ensures FrameTextures(g, frames + [f]) == FrameTextures(g, frames) + [FrameTexture(g, f)]
  {
    assert (frames + [f])[..|frames|] == frames;
  }

  /** One more image of the compositing loop. */
  lemma RunStep(g: GifFile, i: nat)
    requires WellFormed(g) && i < |g.images|
    ensures var st := Run(g, i).state;
      var img := g.images[i];
      Run(g, i + 1) == Composited(StepWith(st, g, img, true), Run(g, i).frames + [Shown(st, g, img)],
                                  Run(g, i).delays + [GceFor(st, g, img).delay])
  {
  }

  /** One more image of anim.c's loop, from the state the surface held before it. */
  lemma LegacyRunStep(g: GifFile, i: nat, before: Grid, gce: Gce, frame: Grid, nextGce: Gce)
    requires WellFormed(g) && i < |g.images|
    requires LegacyRun(g, i).state == LegacyCompositor(before, gce)
    requires nextGce == ReadGces(gce, g.images[i].extensions)
    requires frame == LegacyShown(LegacyCompositor(before, gce), g, g.images[i])
    ensures LegacyRun(g, i + 1).state == LegacyCompositor(frame, nextGce)
    ensures LegacyRun(g, i + 1).frames == LegacyRun(g, i).frames + [frame]
    ensures LegacyRun(g, i + 1).delays == LegacyRun(g, i).delays + [nextGce.delay]
  {
  }

  /**
   * giflib_load of media/si_gif.cpp: nothing is created when the file cannot be opened
   * or slurped; otherwise the SiAnim has the screen's size, one texture and one delay per
   * image, exactly the frames and delays of the compositor.
   */
  method SiGifLoad(src: GifSource) returns (anim: SiAnim?)
    requires src.Slurped? ==> WellFormed(src.gif)
    ensures anim != null <==> src.Slurped?
    ensures anim != null ==>
      var g := src.gif;
      var run := Run(g, |g.images|);
      fresh(anim) && anim.width == g.width && anim.height == g.height && anim.totalDuration == 0 &&
      anim.textures == FrameTextures(g, run.frames) && anim.delays == run.delays
  {
    if !src.Slurped? {
      return null;
    }
    var g := src.gif;
    anim := new SiAnim();
    anim.SetWidth(g.width);
    anim.SetHeight(g.height);
    var canvas := NewSurface(g);
    var prev := NewSurface(g);
    var allowDraw := true;
    var gce := NoGce;
    var i := 0;
    while i < |g.images|
      invariant 0 <= i <= |g.images|
      invariant Run(g, i).state == Compositor(Snapshot(canvas), Snapshot(prev), allowDraw, gce)
      invariant anim.textures == FrameTextures(g, Run(g, i).frames) && anim.delays == Run(g, i).delays
      invariant anim.width == g.width && anim.height == g.height && anim.totalDuration == 0
    {
      ghost var run := Run(g, i);
      var frame;
      frame, gce, allowDraw := CompositeImage(canvas, prev, g, g.images[i], allowDraw, gce);
      anim.PushDelay(gce.delay);
      anim.PushTexture(FrameTexture(g, frame));
      RunStep(g, i);
      FrameTexturesSnoc(g, run.frames, frame);
      i := i + 1;
    }
  }

  /**
   * giflib_load of anim.cpp: the same compositing, into an anim_t whose arrays hold one
   * texture and one delay per image and whose size is the screen's.
   */
  method AnimGifLoad(src: GifSource) returns (anim: AnimT?)
    requires src.Slurped? ==> WellFormed(src.gif)
    ensures anim != null <==> src.Slurped?
    ensures anim != null ==>
      var g := src.gif;
      var run := Run(g, |g.images|);
      fresh(anim) && fresh(anim.tex) && fresh(anim.delay) &&
      anim.numFrame == |g.images| && anim.w == g.width && anim.h == g.height && anim.totalDuration == 0 &&
      anim.tex[..] == FrameTextures(g, run.frames) && anim.delay[..] == run.delays
  {
    if !src.Slurped? {
      return null;
    }
    var g := src.gif;
    anim := new AnimT(|g.images|);
    anim.numFrame := |g.images|;
    anim.w := g.width;
    anim.h := g.height;
    var canvas := NewSurface(g);
    var prev := NewSurface(g);
    var allowDraw := true;
    var gce := NoGce;
    var i := 0;
    while i < |g.images|
      invariant 0 <= i <= |g.images|
      invariant fresh(anim.tex) && fresh(anim.delay)
      invariant AnimFilled(anim.tex, anim.delay, canvas, prev, g, i, allowDraw, gce)
      invariant anim.numFrame == |g.images| && anim.w == g.width && anim.h == g.height && anim.totalDuration == 0
    {
      allowDraw, gce := AnimGifStep(anim.tex, anim.delay, canvas, prev, g, i, allowDraw, gce);
      i := i + 1;
    }
    AnimFilledAll(anim.tex, anim.delay, canvas, prev, g, allowDraw, gce);
  }

  lemma AnimFilledAll(tex: array<Texture>, delay: array<u32>, canvas: array2<Pixel>, prev: array2<Pixel>,
                      g: GifFile, allowDraw: bool, gce: Gce)
    requires WellFormed(g) && AnimFilled(tex, delay, canvas, prev, g, |g.images|, allowDraw, gce)
    ensures tex[..] == FrameTextures(g, Run(g, |g.images|).frames)
    ensures delay[..] == Run(g, |g.images|).delays
  {
    assert tex[..] == tex[..|g.images|];
    assert delay[..] == delay[..|g.images|];
  }

  /** Slot i of the texture and delay arrays receives a frame; the slots before it are kept. */
  method StoreSlot(tex: array<Texture>, delay: array<u32>, i: nat, t: Texture, d: u32)
    requires i < tex.Length && i < delay.Length
    modifies tex, delay
    ensures tex[..i + 1] == old(tex[..i]) + [t] && delay[..i + 1] == old(delay[..i]) + [d]
  {
    tex[i] := t;
    delay[i] := d;
  }

  /** anim.cpp's loop after i images: the surfaces hold the compositor's state, slots 0..i-1 its frames and delays. */
  ghost predicate AnimFilled(tex: array<Texture>, delay: array<u32>, canvas: array2<Pixel>, prev: array2<Pixel>,
                             g: GifFile, i: nat, allowDraw: bool, gce: Gce)
    reads tex, delay, canvas, prev
  {
    WellFormed(g) && i <= |g.images| && canvas != prev && Fits(canvas, g) && Fits(prev, g) &&
    tex.Length == |g.images| && delay.Length == |g.images| &&
    Run(g, i).state == Compositor(Snapshot(canvas), Snapshot(prev), allowDraw, gce) &&
    tex[..i] == FrameTextures(g, Run(g, i).frames) && delay[..i] == Run(g, i).delays
  }

  /** One image of anim.cpp's loop: composite it, then store its texture and delay in slot i. */
  method AnimGifStep(tex: array<Texture>, delay: array<u32>, canvas: array2<Pixel>, prev: array2<Pixel>,
                     g: GifFile, i: nat, allowDraw: bool, gce: Gce)
    returns (nextAllowDraw: bool, nextGce: Gce)
    requires i < |g.images| && AnimFilled(tex, delay, canvas, prev, g, i, allowDraw, gce)
    modifies tex, delay, canvas, prev
    ensures AnimFilled(tex, delay, canvas, prev, g, i + 1, nextAllowDraw, nextGce)
  {
    ghost var run := Run(g, i);
    var frame;
    frame, nextGce, nextAllowDraw := CompositeImage(canvas, prev, g, g.images[i], allowDraw, gce);
    StoreSlot(tex, delay, i, FrameTexture(g, frame), nextGce.delay);
    RunStep(g, i);
    FrameTexturesSnoc(g, run.frames, frame);
  }

  /**
   * giflib_load of anim.c: only a failed open returns nothing (the slurp result is not
   * checked); a restore disposal zeroes the whole canvas before the image is drawn, and
   * every image is drawn.
   */
  method LegacyGifLoad(src: Option<GifFile>) returns (anim: LegacyAnimT?)
    requires src.Some? ==> WellFormed(src.value)
    ensures anim != null <==> src.Some?
    ensures anim != null ==>
      var g := src.value;
      var run := LegacyRun(g, |g.images|);
      fresh(anim) && fresh(anim.tex) && fresh(anim.delay) &&
      anim.numFrame == |g.images| && anim.w == g.width && anim.h == g.height &&
      anim.currentFrame == 0 && anim.prevTime == 0 &&
      anim.tex[..] == FrameTextures(g, run.frames) && anim.delay[..] == run.delays
  {
    if src.None? {
      return null;
    }
    var g := src.value;
    anim := new LegacyAnimT(|g.images|);
    anim.numFrame := |g.images|;
    anim.w := g.width;
    anim.h := g.height;
    var canvas := NewSurface(g);
    var gce := NoGce;
    var i := 0;
    while i < |g.images|
      invariant 0 <= i <= |g.images|
      invariant fresh(anim.tex) && fresh(anim.delay)
      invariant LegacyFilled(anim.tex, anim.delay, canvas, g, i, gce)
      invariant anim.numFrame == |g.images| && anim.w == g.width && anim.h == g.height
      invariant anim.currentFrame == 0 && anim.prevTime == 0
    {
      gce := LegacyGifStep(anim.tex, anim.delay, canvas, g, i, gce);
      i := i + 1;
    }
    LegacyFilledAll(anim.tex, anim.delay, canvas, g, gce);
  }

  lemma LegacyFilledAll(tex: array<Texture>, delay: array<u32>, canvas: array2<Pixel>, g: GifFile, gce: Gce)
    requires WellFormed(g) && LegacyFilled(tex, delay, canvas, g, |g.images|, gce)
    ensures tex[..] == FrameTextures(g, LegacyRun(g, |g.images|).frames)
    ensures delay[..] == LegacyRun(g, |g.images|).delays
  {
    assert tex[..] == tex[..|g.images|];
    assert delay[..] == delay[..|g.images|];
  }

  /** anim.c's loop after i images: the canvas is the last frame, slots 0..i-1 hold the frames and delays. */
  ghost predicate LegacyFilled(tex: array<Texture>, delay: array<u32>, canvas: array2<Pixel>, g: GifFile, i: nat, gce: Gce)
    reads tex, delay, canvas
  {
    WellFormed(g) && i <= |g.images| && Fits(canvas, g) &&
    tex.Length == |g.images| && delay.Length == |g.images| &&
    LegacyRun(g, i).state == LegacyCompositor(Snapshot(canvas), gce) &&
    tex[..i] == FrameTextures(g, LegacyRun(g, i).frames) && delay[..i] == LegacyRun(g, i).delays
  }

  /** One image of anim.c's loop: composite it, then store its texture and delay in slot i. */
  method LegacyGifStep(tex: array<Texture>, delay: array<u32>, canvas: array2<Pixel>, g: GifFile, i: nat, gce: Gce)
    returns (nextGce: Gce)
    requires i < |g.images| && LegacyFilled(tex, delay, canvas, g, i, gce)
    modifies tex, delay, canvas
    ensures LegacyFilled(tex, delay, canvas, g, i + 1, nextGce)
  {
    ghost var run := LegacyRun(g, i);
    ghost var before := Snapshot(canvas);
    var frame;
    frame, nextGce := LegacyCompositeImage(canvas, g, g.images[i], gce);
    LegacyRunStep(g, i, before, gce, frame, nextGce);
    FrameTexturesSnoc(g, run.frames, frame);
    StoreSlot(tex, delay, i, FrameTexture(g, frame), nextGce.delay);
  }
}
