/**
 * Loading an animation from a file: the single-PNG loaders, the solid-colour animation,
 * and anim_load, which tries the decoders in a fixed order and then caches the total
 * duration. What each decoder makes of the file is given as a MediaFile; libav is not
 * modelled, and its outcome is passed in as an animation object (or null).
 */
module Reader {
  import opened Wrappers
  import opened U32
  import opened Media
  import opened AnimRecord
  import opened Scheduler
  import opened Gif
  import opened GifLoader
  import opened ZipLoader
  import opened NameSort

  /** What each decoder makes of one file. */
  datatype MediaFile = MediaFile(gif: GifSource, png: PngResult, zip: ZipSource)

  /** The older loader's view of the GIF outcome: the slurped file, or nothing. */
  function LegacyGifOf(src: GifSource): (r: Option<GifFile>)
    ensures r.Some? <==> src.Slurped?
    ensures r.Some? ==> r.value == src.gif
  {
    if src.Slurped? then Some(src.gif) else None
  }

  /** The archive yields an animation: it opens and has at least one member. */
  predicate ZipLoads(z: ZipSource)
  {
    z.ZipOpened? && |z.members| > 0
  }

  // ---------------------------------------------------------------------------
  // Total duration

  /** The sum of the delays, accumulated in a Uint32. */
  function TotalOf(d: seq<u32>): (t: u32)
    ensures Sum(d) < Modulus ==> t == Sum(d)
  {
    Wrap(Sum(d))
  }

  /** Adding one more delay adds it to the total, modulo 2^32. */
  lemma TotalOfSnoc(d: seq<u32>, x: u32)
    ensures TotalOf(d + [x]) == Add32(TotalOf(d), x)
  {
    assert (d + [x])[..|d|] == d;
    WrapAddLeft(Sum(d), x);
  }

  /** The accumulation loop of anim_load. */
  method TotalDuration(d: seq<u32>) returns (t: u32)
    ensures t == TotalOf(d)
  {
    t := 0;
    var i := 0;
    while i < |d|
      invariant 0 <= i <= |d|
      invariant t == TotalOf(d[..i])
    {
      TotalOfSnoc(d[..i], d[i]);
      assert d[..i + 1] == d[..i] + [d[i]];
      t := Add32(t, d[i]);
      i := i + 1;
    }
    assert d[..i] == d;
  }

  // ---------------------------------------------------------------------------
  // Single PNG files

  /** libpng_load of media/si_png.cpp: one frame shown for no time, the size of the image. */
  method SiPngLoad(p: PngResult) returns (anim: SiAnim?)
    ensures anim != null <==> p.PngLoaded?
    ensures anim != null ==> (fresh(anim) &&
      anim.textures == [PngTexture(p)] && anim.delays == [0] &&
      anim.width == p.width && anim.height == p.height && anim.totalDuration == 0)
  {
    if p.PngFailed? {
      return null;
    }
    anim := new SiAnim();
    anim.PushDelay(0);
    anim.PushTexture(PngTexture(p));
    anim.SetWidth(p.width);
    anim.SetHeight(p.height);
  }

  /** libpng_load of anim.cpp: the same single frame in an anim_t. */
  method AnimPngLoad(p: PngResult) returns (anim: AnimT?)
    ensures anim != null <==> p.PngLoaded?
    ensures anim != null ==> (fresh(anim) && fresh(anim.tex) && fresh(anim.delay) &&
      anim.numFrame == 1 && anim.tex[..] == [PngTexture(p)] && anim.delay[..] == [0] &&
      anim.w == p.width && anim.h == p.height && anim.totalDuration == 0)
  {
    if p.PngFailed? {
      return null;
    }
    anim := new AnimT(1);
    anim.numFrame := 1;
    anim.delay[0] := 0;
    anim.tex[0] := PngTexture(p);
    anim.w := p.width;
    anim.h := p.height;
  }

  /** libpng_load of anim.c: the same single frame in the older anim_t, its playback not started. */
  method LegacyPngLoad(p: PngResult) returns (anim: LegacyAnimT?)
    ensures anim != null <==> p.PngLoaded?
    ensures anim != null ==> (fresh(anim) && fresh(anim.tex) && fresh(anim.delay) &&
      anim.numFrame == 1 && anim.tex[..] == [PngTexture(p)] && anim.delay[..] == [0] &&
      anim.w == p.width && anim.h == p.height && anim.currentFrame == 0 && anim.prevTime == 0)
  {
    if p.PngFailed? {
      return null;
    }
    anim := new LegacyAnimT(1);
    anim.numFrame := 1;
    anim.w := p.width;
    anim.h := p.height;
    anim.delay[0] := 0;
    anim.tex[0] := PngTexture(p);
  }

  // ---------------------------------------------------------------------------
  // Solid colour

  /** A w x h surface's pixel buffer read row by row: row y starts at offset y * w. */
  function Rows(flat: seq<Pixel>, w: nat, h: nat): (c: Grid)
    requires |flat| == w * h
    ensures IsGrid(c, w, h)
    ensures forall y | 0 <= y < h :: c[y] == RowAt(flat, w, h, y)
  {
    seq(h, y requires 0 <= y < h => RowAt(flat, w, h, y))
  }

  function RowAt(flat: seq<Pixel>, w: nat, h: nat, y: nat): (r: seq<Pixel>)
    requires |flat| == w * h && y < h
    ensures |r| == w
    ensures 0 <= y * w && y * w + w <= |flat|
    ensures forall x | 0 <= x < w :: r[x] == flat[y * w + x]
  {
    MulLe(y + 1, h, w);
    assert (y + 1) * w == y * w + w;
    flat[y * w..y * w + w]
  }

  /** A w x h grid of one colour. */
  function ColorGrid(w: nat, h: nat, color: Pixel): (c: Grid)
    ensures IsGrid(c, w, h) && forall y, x | 0 <= y < h && 0 <= x < w :: c[y][x] == color
  {
    seq(h, _ => seq(w, _ => color))
  }

  /**
   * The fill loop over the surface's width * height pixels: afterwards the surface is a
   * w x h grid of the colour.
   */
  method FillSurface(w: nat, h: nat, color: Pixel) returns (grid: Grid)
    ensures grid == ColorGrid(w, h, color)
  {
    var pixels := new Pixel[w * h];
    var i := 0;
    while i < w * h
      invariant 0 <= i <= w * h
      invariant forall j | 0 <= j < i :: pixels[j] == color
    {
      pixels[i] := color;
      i := i + 1;
    }
    grid := Rows(pixels[..], w, h);
    assert forall y | 0 <= y < h :: grid[y] == ColorGrid(w, h, color)[y];
  }

  /**
   * anim_create_color of media/reader.cpp: one frame of the given size filled with the
   * RGBA colour, shown for no time. The size must be one SDL can create a surface for.
   */
  method SiCreateColor(width: int, height: int, color: Pixel) returns (anim: SiAnim)
    requires 0 <= width && 0 <= height && width * height < 0x8000_0000
    ensures fresh(anim)
    ensures anim.width == width && anim.height == height && anim.delays == [0] && anim.totalDuration == 0
    ensures anim.textures == [Texture(width, height, Pixels(ColorGrid(width, height, color)))]
  {
    anim := new SiAnim();
    anim.SetWidth(width);
    anim.SetHeight(height);
    anim.PushDelay(0);
    var grid := FillSurface(width, height, color);
    anim.PushTexture(Texture(width, height, Pixels(grid)));
  }

  /** anim_create_color of anim.cpp: the same frame in an anim_t. */
  method AnimCreateColor(width: u32, height: u32, color: Pixel) returns (anim: AnimT)
    requires width * height < 0x8000_0000
    ensures fresh(anim) && fresh(anim.tex) && fresh(anim.delay)
    ensures anim.numFrame == 1 && anim.w == width && anim.h == height && anim.totalDuration == 0
    ensures anim.tex[..] == [Texture(width, height, Pixels(ColorGrid(width, height, color)))] && anim.delay[..] == [0]
  {
    anim := new AnimT(1);
    anim.numFrame := 1;
    anim.w := width;
    anim.h := height;
    anim.delay[0] := 0;
    var grid := FillSurface(width, height, color);
    anim.tex[0] := Texture(width, height, Pixels(grid));
  }

  /** The frame of a colour animation is exactly the requested size and every pixel is the colour. */
  lemma ColorFrameIsUniform(width: nat, height: nat, color: Pixel)
    ensures var t := Texture(width, height, Pixels(ColorGrid(width, height, color)));
      QueryWidth(t) == width && QueryHeight(t) == height &&
      IsGrid(t.content.grid, width, height) &&
      forall y, x | 0 <= y < height && 0 <= x < width :: t.content.grid[y][x] == color
  {
  }

  // ---------------------------------------------------------------------------
  // anim_load

  /** Which decoder's animation anim_load returns. */
  datatype Source = FromGif | FromPng | FromZip | FromAv | NoMedia

  /** The first decoder in the order GIF, PNG, zip, libav that yields an animation. */
  function Chosen(f: MediaFile, avLoads: bool): (s: Source)
    ensures s == FromGif <==> f.gif.Slurped?
    ensures s == FromPng <==> !f.gif.Slurped? && f.png.PngLoaded?
    ensures s == FromZip <==> !f.gif.Slurped? && !f.png.PngLoaded? && ZipLoads(f.zip)
    ensures s == FromAv <==> !f.gif.Slurped? && !f.png.PngLoaded? && !ZipLoads(f.zip) && avLoads
  {
    if f.gif.Slurped? then FromGif
    else if f.png.PngLoaded? then FromPng
    else if ZipLoads(f.zip) then FromZip
    else if avLoads then FromAv
    else NoMedia
  }

  /** The older chain of anim.c: GIF, PNG, libav; it has no zip decoder. */
  function LegacyChosen(f: MediaFile, avLoads: bool): (s: Source)
    ensures s != FromZip
    ensures s == Chosen(f.(zip := ZipNull), avLoads)
  {
    if f.gif.Slurped? then FromGif
    else if f.png.PngLoaded? then FromPng
    else if avLoads then FromAv
    else NoMedia
  }

  /** A later decoder is only consulted when every earlier one failed: the file loads iff one succeeds. */
  lemma ChosenLoadsIffAnyDecoder(f: MediaFile, avLoads: bool)
    ensures Chosen(f, avLoads) == NoMedia <==>
      !f.gif.Slurped? && !f.png.PngLoaded? && !ZipLoads(f.zip) && !avLoads
    ensures LegacyChosen(f, avLoads) == NoMedia <==> !f.gif.Slurped? && !f.png.PngLoaded? && !avLoads
  {
  }

  /** The first three decoders of media/reader.cpp's anim_load. */
  method SiDecode(f: MediaFile) returns (ret: SiAnim?)
    requires f.gif.Slurped? ==> WellFormed(f.gif.gif)
    ensures ret != null <==> Chosen(f, false) != NoMedia
    ensures ret != null ==> fresh(ret) && ret.totalDuration == 0
    ensures Chosen(f, false) == FromGif ==> (ret != null &&
      var g := f.gif.gif;
      ret.textures == FrameTextures(g, Run(g, |g.images|).frames) && ret.delays == Run(g, |g.images|).delays &&
      ret.width == g.width && ret.height == g.height)
    ensures Chosen(f, false) == FromPng ==> (ret != null &&
      ret.textures == [PngTexture(f.png)] && ret.delays == [0] &&
      ret.width == f.png.width && ret.height == f.png.height)
    ensures Chosen(f, false) == FromZip ==> (ret != null &&
      var ms := f.zip.members;
      AssemblyOf(ret) == SiZipRun(SiZipStart(|ms| - 1), ms, SortNames(Names(ms)), |ms| - 1))
  {
    ret := SiGifLoad(f.gif);
    if ret == null {
      ret := SiPngLoad(f.png);
      if ret == null {
        ret := SiZipLoad(f.zip);
      }
    }
  }

  /**
   * anim_load of media/reader.cpp: the first decoder that yields an animation, with the
   * total duration set to the Uint32 sum of its delays; libav's animation `av` is used
   * only when the other three fail.
   */
  method SiAnimLoad(f: MediaFile, av: SiAnim?) returns (ret: SiAnim?)
    requires f.gif.Slurped? ==> WellFormed(f.gif.gif)
    modifies av
    ensures ret != null <==> Chosen(f, av != null) != NoMedia
    ensures Chosen(f, av != null) == FromAv ==> (ret == av &&
      ret.textures == old(av.textures) && ret.delays == old(av.delays) &&
      ret.width == old(av.width) && ret.height == old(av.height))
    ensures Chosen(f, av != null) in {FromGif, FromPng, FromZip} ==> fresh(ret)
    ensures ret != null ==> ret.totalDuration == TotalOf(ret.delays)
  {
    ret := SiDecode(f);
    if ret == null {
      ret := av;
    }
    if ret != null {
      var total := TotalDuration(ret.delays);
      ret.SetTotalDuration(total);
    }
  }

  /** The first three decoders of anim.cpp's anim_load. */
  method AnimDecode(f: MediaFile) returns (ret: AnimT?)
    requires f.gif.Slurped? ==> WellFormed(f.gif.gif)
    ensures ret != null <==> Chosen(f, false) != NoMedia
    ensures ret != null ==> (fresh(ret) && fresh(ret.tex) && fresh(ret.delay) &&
      0 <= ret.numFrame <= ret.delay.Length && ret.numFrame <= ret.tex.Length && ret.totalDuration == 0)
    ensures Chosen(f, false) == FromGif ==> (ret != null &&
      var g := f.gif.gif;
      ret.tex[..] == FrameTextures(g, Run(g, |g.images|).frames) && ret.delay[..] == Run(g, |g.images|).delays &&
      ret.w == g.width && ret.h == g.height)
    ensures Chosen(f, false) == FromPng ==> (ret != null &&
      ret.tex[..] == [PngTexture(f.png)] && ret.delay[..] == [0] && ret.w == f.png.width && ret.h == f.png.height)
    ensures Chosen(f, false) == FromZip ==> (ret != null &&
      var ms := f.zip.members;
      var z := AnimZipRun(AnimZipStart(|ms|), ms, SortNames(Names(ms)), |ms| - 1);
      ret.tex[..ret.numFrame] == z.frames && ret.w == z.w && ret.h == z.h && ret.delay[..] == z.delays)
  {
    ret := AnimGifLoad(f.gif);
    if ret == null {
      ret := AnimPngLoad(f.png);
      if ret == null {
        ret := AnimZipLoad(f.zip);
      }
    }
  }

  /** The total of the first numFrame delays, as anim.cpp's anim_load accumulates it. */
  method SetAnimTotal(anim: AnimT)
    requires 0 <= anim.numFrame <= anim.delay.Length
    modifies anim
    ensures anim.numFrame == old(anim.numFrame) && anim.tex == old(anim.tex) && anim.delay == old(anim.delay)
    ensures anim.w == old(anim.w) && anim.h == old(anim.h)
    ensures anim.totalDuration == TotalOf(anim.delay[..anim.numFrame])
  {
    anim.totalDuration := 0;
    var i := 0;
    while i < anim.numFrame
      invariant 0 <= i <= anim.numFrame
      invariant anim.numFrame == old(anim.numFrame) && anim.tex == old(anim.tex) && anim.delay == old(anim.delay)
      invariant anim.w == old(anim.w) && anim.h == old(anim.h)
      invariant anim.totalDuration == TotalOf(anim.delay[..i])
    {
      TotalOfSnoc(anim.delay[..i], anim.delay[i]);
      assert anim.delay[..i + 1] == anim.delay[..i] + [anim.delay[i]];
      anim.totalDuration := Add32(anim.totalDuration, anim.delay[i]);
      i := i + 1;
    }
  }

  /**
   * anim_load of anim.cpp: nothing for a null file name; otherwise the first decoder that
   * yields an animation (the zip decoder sized one slot per member), with the total
   * duration set to the Uint32 sum of the delays of its frames.
   */
  method AnimLoad(file: Option<MediaFile>, av: AnimT?) returns (ret: AnimT?)
    requires file.Some? && file.value.gif.Slurped? ==> WellFormed(file.value.gif.gif)
    requires av != null ==> 0 <= av.numFrame <= av.delay.Length
    modifies av
    ensures file.None? ==> ret == null
    ensures file.Some? ==> (ret != null <==> Chosen(file.value, av != null) != NoMedia)
    ensures file.Some? && Chosen(file.value, av != null) == FromAv ==> (ret == av &&
      ret.numFrame == old(av.numFrame) && ret.tex == old(av.tex) && ret.delay == old(av.delay) &&
      ret.w == old(av.w) && ret.h == old(av.h))
    ensures file.Some? && Chosen(file.value, av != null) in {FromGif, FromPng, FromZip} ==>
      fresh(ret) && fresh(ret.tex) && fresh(ret.delay)
    ensures ret != null ==> (0 <= ret.numFrame <= ret.delay.Length &&
      ret.totalDuration == TotalOf(ret.delay[..ret.numFrame]))
  {
    if file.None? {
      return null;
    }
    ret := AnimDecode(file.value);
    if ret == null {
      ret := av;
    }
    if ret != null {
      SetAnimTotal(ret);
    }
  }

  /**
   * anim_load of anim.c: the first of the GIF, PNG and libav decoders that yields an
   * animation, returned as it is (this version keeps no total duration).
   */
  method LegacyAnimLoad(f: MediaFile, av: LegacyAnimT?) returns (ret: LegacyAnimT?)
    requires f.gif.Slurped? ==> WellFormed(f.gif.gif)
    ensures ret != null <==> LegacyChosen(f, av != null) != NoMedia
    ensures LegacyChosen(f, av != null) == FromAv ==> ret == av
    ensures LegacyChosen(f, av != null) == FromGif ==> (ret != null && fresh(ret) &&
      var g := f.gif.gif;
      ret.tex[..] == FrameTextures(g, LegacyRun(g, |g.images|).frames) &&
      ret.delay[..] == LegacyRun(g, |g.images|).delays && ret.w == g.width && ret.h == g.height)
    ensures LegacyChosen(f, av != null) == FromPng ==> (ret != null && fresh(ret) &&
      ret.tex[..] == [PngTexture(f.png)] && ret.delay[..] == [0] && ret.w == f.png.width && ret.h == f.png.height)
  {
    ret := LegacyGifLoad(LegacyGifOf(f.gif));
    if ret != null {
      return ret;
    }
    ret := LegacyPngLoad(f.png);
    if ret != null {
      return ret;
    }
    ret := av;
  }
}
