/**
 * The GIF compositor shared by anim.cpp and media/si_gif.cpp, as pure functions:
 * decoding of the Graphics Control Extension, drawing an image onto the canvas,
 * disposal, and the run over all images that yields one canvas copy per image.
 */
module Gif {
  import opened Wrappers
  import opened U32
  import opened Media

  /** GIF_GCE: the extension block function code of a Graphics Control Extension. */
  const GraphicsControl: int := 0xf9
  /** Disposal methods, as gif_lib numbers them (0 is "unspecified"). */
  const DisposeDoNot: int := 1
  const DisposeBackground: int := 2
  const DisposePrevious: int := 3
  /** DEFAULT_DELAY (ms), substituted for a stored delay of 0. */
  const DefaultDelay: int := 40

  datatype Color = Color(red: byte, green: byte, blue: byte)

  datatype ExtensionBlock = ExtensionBlock(code: int, bytes: seq<byte>)

  /** One SavedImage of a slurped file: its rectangle, optional local palette, raster and extensions. */
  datatype Image = Image(
    left: int, top: int, width: int, height: int,
    colorMap: Option<seq<Color>>,
    raster: seq<byte>,
    extensions: seq<ExtensionBlock>)

  /** A slurped GIF: logical screen size, optional global palette, images in file order. */
  datatype GifFile = GifFile(width: int, height: int, colorMap: Option<seq<Color>>, images: seq<Image>)

  /** The palette an image is drawn with: its own, else the global one. */
  function Palette(g: GifFile, img: Image): seq<Color>
    requires img.colorMap.Some? || g.colorMap.Some?
  {
    if img.colorMap.Some? then img.colorMap.value else g.colorMap.value
  }

  /** What the loaders index without checking: rectangles inside the screen, complete rasters, palette entries, 4-byte GCEs. */
  predicate ImageWellFormed(g: GifFile, img: Image)
  {
    0 <= img.left && 0 <= img.top && 0 <= img.width && 0 <= img.height &&
    img.left + img.width <= g.width && img.top + img.height <= g.height &&
    |img.raster| == img.width * img.height &&
    (img.colorMap.Some? || g.colorMap.Some?) &&
    (forall b | b in img.raster :: b < |Palette(g, img)|) &&
    (forall e | e in img.extensions && e.code == GraphicsControl :: |e.bytes| >= 4)
  }

  predicate WellFormed(g: GifFile)
  {
    0 <= g.width && 0 <= g.height &&
    forall i | 0 <= i < |g.images| :: ImageWellFormed(g, g.images[i])
  }

  /** The GCE values the loop carries from image to image. */
  datatype Gce = Gce(transparent: bool, transparentColor: byte, disposal: int, delay: u32)

  /** The loaders' initial values. */
  const NoGce := Gce(false, 0, 0, 0)

  /**
   * One extension block: a GCE sets the transparency flag (bit 0 of byte 0), the
   * disposal ((byte 0 & 28) >> 2), the delay in ms (bytes 1-2, little-endian, in
   * hundredths) with 0 replaced by the default, and, only when the flag is set,
   * the transparent colour (byte 3). Any other block changes nothing.
   */
  function ApplyExtension(s: Gce, e: ExtensionBlock): (r: Gce)
    requires e.code == GraphicsControl ==> |e.bytes| >= 4
    ensures e.code != GraphicsControl ==> r == s
    ensures e.code == GraphicsControl ==>
      r.transparent == (e.bytes[0] % 2 == 1) && 0 <= r.disposal < 8 && r.delay > 0 &&
      (r.delay == DefaultDelay <==> StoredDelay(e) == 0 || StoredDelay(e) == 4) &&
      r.transparentColor == (if r.transparent then e.bytes[3] else s.transparentColor)
    ensures e.code == GraphicsControl ==>
      r.disposal == (e.bytes[0] / 4) % 8 &&
      r.delay as int == (if StoredDelay(e) == 0 then DefaultDelay else StoredDelay(e) * 10)
  {
    if e.code != GraphicsControl then s
    else
      var flags := e.bytes[0];
      var transparent := flags % 2 == 1;
      var d := StoredDelay(e) * 10;
      Gce(transparent,
          if transparent then e.bytes[3] else s.transparentColor,
          (flags / 4) % 8,
          if d == 0 then DefaultDelay else d)
  }

  /** The delay field of a GCE, in hundredths of a second. */
  function StoredDelay(e: ExtensionBlock): int
    requires |e.bytes| >= 3
  {
    e.bytes[1] as int + e.bytes[2] as int * 256
  }

  predicate GcesReadable(exts: seq<ExtensionBlock>)
  {
    forall e | e in exts && e.code == GraphicsControl :: |e.bytes| >= 4
  }

  /** The extension loop of one image: every block in order (written as a fold ending at the last block). */
  function ReadGces(s: Gce, exts: seq<ExtensionBlock>): Gce
    requires GcesReadable(exts)
    decreases |exts|
  {
    if exts == [] then s else ApplyExtension(ReadGces(s, exts[..|exts| - 1]), exts[|exts| - 1])
  }

  /** Index of the last GCE block of a list, if any. */
  function LastGce(exts: seq<ExtensionBlock>): (r: Option<nat>)
    ensures r.Some? ==>
      r.value < |exts| && exts[r.value].code == GraphicsControl &&
      forall j | r.value < j < |exts| :: exts[j].code != GraphicsControl
    ensures r.None? ==> forall j | 0 <= j < |exts| :: exts[j].code != GraphicsControl
  {
    if exts == [] then None
    else if exts[|exts| - 1].code == GraphicsControl then Some(|exts| - 1)
    else LastGce(exts[..|exts| - 1])
  }

  /**
   * The last GCE of an image decides its transparency flag, disposal and delay, whatever
   * came before; an image without a GCE inherits all four values from the images before it.
   */
  lemma {:induction false} ReadGcesLastWins(s: Gce, exts: seq<ExtensionBlock>)
    requires GcesReadable(exts)
    ensures var r := ReadGces(s, exts);
      match LastGce(exts)
      case None => r == s
      case Some(j) =>
        var last := ApplyExtension(NoGce, exts[j]);
        r.transparent == last.transparent && r.disposal == last.disposal && r.delay == last.delay
    decreases |exts|
  {
    if exts != [] && exts[|exts| - 1].code != GraphicsControl {
      var prefix := exts[..|exts| - 1];
      assert forall e | e in prefix :: e in exts;
      ReadGcesLastWins(s, prefix);
    }
  }

  /** The canvas before the first image: the screen's size, every pixel transparent. */
  function Blank(w: nat, h: nat): (c: Grid)
    ensures IsGrid(c, w, h)
    ensures forall y, x | 0 <= y < h && 0 <= x < w :: c[y][x] == Transparent
  {
    seq(h, _ => seq(w, _ => Transparent))
  }

  /** Canvas position (x, y) lies inside the image's rectangle. */
  predicate InRect(img: Image, x: int, y: int)
  {
    img.left <= x < img.left + img.width && img.top <= y < img.top + img.height
  }

  lemma RasterIndexBound(x: int, y: int, w: int, h: int)
    requires 0 <= x < w && 0 <= y < h
    ensures 0 <= x + y * w < w * h
  {
    MulLe(y, h - 1, w);
    assert (h - 1) * w + w == h * w;
  }

  lemma {:induction false} MulLe(a: int, b: int, c: nat)
    requires a <= b
    ensures a * c <= b * c
  {
    if c > 0 {
      MulLe(a, b, c - 1);
      assert a * c == a * (c - 1) + a;
      assert b * c == b * (c - 1) + b;
    }
  }

  /** The raster and palette of an image are complete enough to draw it. */
  predicate Paintable(img: Image, pal: seq<Color>)
  {
    0 <= img.width && 0 <= img.height && |img.raster| == img.width * img.height &&
    forall b | b in img.raster :: b < |pal|
  }

  /** The raster byte the image puts at canvas position (x, y). */
  function RasterAt(img: Image, x: int, y: int): (b: byte)
    requires InRect(img, x, y) && 0 <= img.width && 0 <= img.height && |img.raster| == img.width * img.height
    ensures b in img.raster
  {
    RasterIndexBound(x - img.left, y - img.top, img.width, img.height);
    img.raster[(x - img.left) + (y - img.top) * img.width]
  }

  /** A palette colour with alpha forced to 0xFF. */
  function Opaque(c: Color): Pixel
  {
    Rgba(c.red, c.green, c.blue, 0xFF)
  }

  /** The image leaves canvas pixel (x, y) alone: transparency is on and its byte is the transparent colour. */
  predicate SeeThrough(img: Image, gce: Gce, x: int, y: int)
    requires InRect(img, x, y) && 0 <= img.width && 0 <= img.height && |img.raster| == img.width * img.height
  {
    gce.transparent && RasterAt(img, x, y) == gce.transparentColor
  }

  /** The pixel at (x, y) after drawing the image over `under`. */
  function Painted(under: Pixel, img: Image, pal: seq<Color>, gce: Gce, x: int, y: int): Pixel
    requires InRect(img, x, y) && Paintable(img, pal)
  {
    RasterIndexBound(x - img.left, y - img.top, img.width, img.height);
    if SeeThrough(img, gce, x, y) then under else Opaque(pal[RasterAt(img, x, y)])
  }

  /** The canvas after drawing the image: its rectangle painted, every other pixel as before. */
  function Drawn(c: Grid, img: Image, pal: seq<Color>, gce: Gce): (r: Grid)
    requires Paintable(img, pal)
    ensures |r| == |c| && forall y | 0 <= y < |c| :: |r[y]| == |c[y]|
  {
    seq(|c|, y requires 0 <= y < |c| =>
      seq(|c[y]|, x requires 0 <= x < |c[y]| =>
        if InRect(img, x, y) then Painted(c[y][x], img, pal, gce, x, y) else c[y][x]))
  }

  /** The canvas after restore-to-background: the image's rectangle transparent, the rest as before. */
  function Cleared(c: Grid, img: Image): (r: Grid)
    ensures |r| == |c| && forall y | 0 <= y < |c| :: |r[y]| == |c[y]|
  {
    seq(|c|, y requires 0 <= y < |c| =>
      seq(|c[y]|, x requires 0 <= x < |c[y]| =>
        if InRect(img, x, y) then Transparent else c[y][x]))
  }

  /** What the compositing loop carries from one image to the next. */
  datatype Compositor = Compositor(canvas: Grid, prev: Grid, allowDraw: bool, gce: Gce)

  function Start(g: GifFile): Compositor
    requires WellFormed(g)
  {
    Compositor(Blank(g.width, g.height), Blank(g.width, g.height), true, NoGce)
  }

  /** The GCE values in force for an image: those carried over, updated by its own extensions. */
  function GceFor(st: Compositor, g: GifFile, img: Image): Gce
    requires ImageWellFormed(g, img)
  {
    ReadGces(st.gce, img.extensions)
  }

  /** The canvas emitted for an image: drawn on, unless the image before was "do not dispose". */
  function Shown(st: Compositor, g: GifFile, img: Image): Grid
    requires ImageWellFormed(g, img)
  {
    if st.allowDraw then Drawn(st.canvas, img, Palette(g, img), GceFor(st, g, img)) else st.canvas
  }

  /**
   * One iteration of the image loop: snapshot before drawing for restore-previous, draw,
   * then prepare the next canvas by the image's disposal. `skipAfterKeep` is the source's
   * reading of "do not dispose" (the next image is not drawn at all); without it the next
   * image is drawn on top of the kept canvas.
   */
  function StepWith(st: Compositor, g: GifFile, img: Image, skipAfterKeep: bool): Compositor
    requires ImageWellFormed(g, img)
  {
    var gce := GceFor(st, g, img);
    var prev := if gce.disposal == DisposePrevious then st.canvas else st.prev;
    var shown := Shown(st, g, img);
    if gce.disposal == DisposeDoNot then Compositor(shown, prev, !skipAfterKeep, gce)
    else if gce.disposal == DisposeBackground then Compositor(Cleared(shown, img), prev, true, gce)
    else if gce.disposal == DisposePrevious then Compositor(prev, prev, true, gce)
    else Compositor(shown, prev, true, gce)
  }

  /** Compositor state after some images, with the frames and delays emitted so far. */
  datatype Composited = Composited(state: Compositor, frames: seq<Grid>, delays: seq<u32>)

  function RunWith(g: GifFile, k: nat, skipAfterKeep: bool): (r: Composited)
    requires WellFormed(g) && k <= |g.images|
    ensures |r.frames| == k && |r.delays| == k
    ensures !skipAfterKeep ==> r.state.allowDraw
    ensures IsGrid(r.state.canvas, g.width, g.height) && IsGrid(r.state.prev, g.width, g.height)
    ensures forall i | 0 <= i < k :: IsGrid(r.frames[i], g.width, g.height)
  {
    if k == 0 then Composited(Start(g), [], [])
    else
      var before := RunWith(g, k - 1, skipAfterKeep);
      var img := g.images[k - 1];
      Composited(
        StepWith(before.state, g, img, skipAfterKeep),
        before.frames + [Shown(before.state, g, img)],
        before.delays + [GceFor(before.state, g, img).delay])
  }

  /** The compositing loop of the loaders, as written: the first k images. */
  function Run(g: GifFile, k: nat): (r: Composited)
    requires WellFormed(g) && k <= |g.images|
    ensures |r.frames| == k && |r.delays| == k
    ensures forall i | 0 <= i < k :: IsGrid(r.frames[i], g.width, g.height)
  {
    RunWith(g, k, true)
  }

  /** The compositing loop with "do not dispose" read as the GIF89a specification reads it. */
  function RunIntended(g: GifFile, k: nat): (r: Composited)
    requires WellFormed(g) && k <= |g.images|
    ensures |r.frames| == k && |r.delays| == k
    ensures r.state.allowDraw
  {
    RunWith(g, k, false)
  }

  /** Frames already emitted are never revised by later images. */
  lemma {:induction false} RunWithPrefix(g: GifFile, k: nat, m: nat, skipAfterKeep: bool)
    requires WellFormed(g) && k <= m <= |g.images|
    ensures RunWith(g, m, skipAfterKeep).frames[..k] == RunWith(g, k, skipAfterKeep).frames
    ensures RunWith(g, m, skipAfterKeep).delays[..k] == RunWith(g, k, skipAfterKeep).delays
    decreases m - k
  {
    if k < m {
      RunWithPrefix(g, k, m - 1, skipAfterKeep);
      RunWithGrows(g, m, skipAfterKeep);
      var r := RunWith(g, m, skipAfterKeep);
      assert r.frames[..k] == r.frames[..m - 1][..k];
      assert r.delays[..k] == r.delays[..m - 1][..k];
    }
  }

  /** One more image appends one frame and one delay and leaves the earlier ones alone. */
  lemma RunWithGrows(g: GifFile, m: nat, skipAfterKeep: bool)
    requires WellFormed(g) && 0 < m <= |g.images|
    ensures RunWith(g, m, skipAfterKeep).frames[..m - 1] == RunWith(g, m - 1, skipAfterKeep).frames
    ensures RunWith(g, m, skipAfterKeep).delays[..m - 1] == RunWith(g, m - 1, skipAfterKeep).delays
  {
    var before := RunWith(g, m - 1, skipAfterKeep);
    assert RunWith(g, m, skipAfterKeep).frames[..m - 1] == before.frames;
  }

  /** The disposal method of image k. */
  function DisposalOf(g: GifFile, k: nat): int
    requires WellFormed(g) && k < |g.images|
  {
    GceFor(Run(g, k).state, g, g.images[k]).disposal
  }

  /** Restore to background: the next image is drawn onto the emitted frame with image k's rectangle cleared. */
  lemma AfterDisposeBackground(g: GifFile, k: nat)
    requires WellFormed(g) && k + 1 < |g.images|
    requires DisposalOf(g, k) == DisposeBackground
    ensures var next := Run(g, k + 1).state;
      Run(g, k + 2).frames[k + 1] ==
        Drawn(Cleared(Run(g, k + 1).frames[k], g.images[k]), g.images[k + 1],
              Palette(g, g.images[k + 1]), GceFor(next, g, g.images[k + 1]))
  {
  }

  /** Restore to previous: the next image is drawn onto the canvas as it was before image k was drawn. */
  lemma AfterDisposePrevious(g: GifFile, k: nat)
    requires WellFormed(g) && k + 1 < |g.images|
    requires DisposalOf(g, k) == DisposePrevious
    ensures var next := Run(g, k + 1).state;
      Run(g, k + 2).frames[k + 1] ==
        Drawn(Run(g, k).state.canvas, g.images[k + 1],
              Palette(g, g.images[k + 1]), GceFor(next, g, g.images[k + 1]))
  {
  }

  /** As written, the image after a "do not dispose" image is not drawn: it repeats the frame before it. */
  lemma AfterDoNotDispose(g: GifFile, k: nat)
    requires WellFormed(g) && k + 1 < |g.images|
    requires DisposalOf(g, k) == DisposeDoNot
    ensures Run(g, k + 2).frames[k + 1] == Run(g, k + 1).frames[k]
  {
  }

  /** Read as intended, "do not dispose" keeps the frame and the next image is drawn on top of it. */
  lemma AfterDoNotDisposeIntended(g: GifFile, k: nat)
    requires WellFormed(g) && k + 1 < |g.images|
    requires GceFor(RunIntended(g, k).state, g, g.images[k]).disposal == DisposeDoNot
    ensures var next := RunIntended(g, k + 1).state;
      RunIntended(g, k + 2).frames[k + 1] ==
        Drawn(RunIntended(g, k + 1).frames[k], g.images[k + 1],
              Palette(g, g.images[k + 1]), GceFor(next, g, g.images[k + 1]))
  {
  }

  /**
   * A single image covering the whole screen with transparency off comes out as its
   * raster mapped through its palette, every pixel opaque.
   */
  lemma SingleOpaqueImage(g: GifFile)
    requires WellFormed(g) && |g.images| == 1
    requires var img := g.images[0]; img.left == 0 && img.top == 0 && img.width == g.width && img.height == g.height
    requires !ReadGces(NoGce, g.images[0].extensions).transparent
    ensures var img := g.images[0];
      forall y, x | 0 <= y < g.height && 0 <= x < g.width ::
        Run(g, 1).frames[0][y][x] == Opaque(Palette(g, img)[RasterAt(img, x, y)])
  {
    var img := g.images[0];
    var gce := ReadGces(NoGce, img.extensions);
    var frame := Drawn(Blank(g.width, g.height), img, Palette(g, img), gce);
    assert RunWith(g, 0, true).state == Start(g);
    assert RunWith(g, 1, true).frames == [Shown(Start(g), g, img)];
    assert GceFor(Start(g), g, img) == gce;
    assert Run(g, 1).frames[0] == frame;
    forall y, x | 0 <= y < g.height && 0 <= x < g.width
      ensures frame[y][x] == Opaque(Palette(g, img)[RasterAt(img, x, y)])
    {
      assert InRect(img, x, y);
    }
  }

  /** anim.c's compositor: the canvas and the GCE values carried from image to image. */
  datatype LegacyCompositor = LegacyCompositor(canvas: Grid, gce: Gce)

  /** anim.c starts from a cleared canvas; its GCE variables are read as all zero. */
  function LegacyStart(g: GifFile): LegacyCompositor
    requires WellFormed(g)
  {
    LegacyCompositor(Blank(g.width, g.height), NoGce)
  }

  /** True when anim.c clears the whole canvas before drawing an image with this disposal. */
  predicate ClearsFirst(disposal: int)
  {
    disposal == DisposeBackground || disposal == DisposePrevious
  }

  /**
   * anim.c's frame for an image: a restore disposal (of this image, not the one before)
   * clears the whole canvas first; the image is always drawn.
   */
  function LegacyShown(st: LegacyCompositor, g: GifFile, img: Image): Grid
    requires ImageWellFormed(g, img)
  {
    var gce := ReadGces(st.gce, img.extensions);
    var under := if ClearsFirst(gce.disposal) then Blank(g.width, g.height) else st.canvas;
    Drawn(under, img, Palette(g, img), gce)
  }

  datatype LegacyComposited = LegacyComposited(state: LegacyCompositor, frames: seq<Grid>, delays: seq<u32>)

  /** anim.c's image loop over the first k images: the canvas carries over as it was emitted. */
  function LegacyRun(g: GifFile, k: nat): (r: LegacyComposited)
    requires WellFormed(g) && k <= |g.images|
    ensures |r.frames| == k && |r.delays| == k
    ensures IsGrid(r.state.canvas, g.width, g.height)
    ensures forall i | 0 <= i < k :: IsGrid(r.frames[i], g.width, g.height)
  {
    if k == 0 then LegacyComposited(LegacyStart(g), [], [])
    else
      var before := LegacyRun(g, k - 1);
      var img := g.images[k - 1];
      var gce := ReadGces(before.state.gce, img.extensions);
      var shown := LegacyShown(before.state, g, img);
      LegacyComposited(LegacyCompositor(shown, gce), before.frames + [shown], before.delays + [gce.delay])
  }

  /** In anim.c a restore disposal forgets every earlier image: the frame is the image alone on a cleared canvas. */
  lemma LegacyRestoreStartsOver(g: GifFile, k: nat)
    requires WellFormed(g) && k < |g.images|
    requires ClearsFirst(ReadGces(LegacyRun(g, k).state.gce, g.images[k].extensions).disposal)
    ensures var img := g.images[k];
      LegacyRun(g, k + 1).frames[k] ==
        Drawn(Blank(g.width, g.height), img, Palette(g, img), ReadGces(LegacyRun(g, k).state.gce, img.extensions))
  {
  }

  /** Any other disposal accumulates: the image is drawn over the frame emitted before it. */
  lemma LegacyOtherwiseAccumulates(g: GifFile, k: nat)
    requires WellFormed(g) && 0 < k < |g.images|
    requires !ClearsFirst(ReadGces(LegacyRun(g, k).state.gce, g.images[k].extensions).disposal)
    ensures var img := g.images[k];
      LegacyRun(g, k + 1).frames[k] ==
        Drawn(LegacyRun(g, k).frames[k - 1], img, Palette(g, img), ReadGces(LegacyRun(g, k).state.gce, img.extensions))
  {
  }
}
