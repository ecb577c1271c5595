/**
 * Frame sets stored as zip archives: one PNG per frame plus an optional member named
 * "timing" holding the delays. The archive is a list of members, each with its name and
 * what the loader gets out of it; zip_name_locate, extract_zip, the temporary file and
 * fscanf are folded into that.
 */
module ZipLoader {
  import opened Wrappers
  import opened U32
  import opened Media
  import opened AnimRecord
  import opened NameSort

  /** ZIP_TIMING_FILE: the member holding the delays. */
  const TimingName: string := "timing"

  /** The delay of a frame the timing member does not cover (ms). */
  const ZipDefaultDelay: u32 := 40

  /**
   * What the loader gets out of a member: nothing (extraction failed), or the numbers
   * fscanf reads from it in order, up to the first one it cannot read, and what
   * libpng_load_texture makes of it.
   */
  datatype MemberData = Unreadable | Readable(numbers: seq<int>, png: PngResult)

  datatype Member = Member(name: string, data: MemberData)

  /** zip_open: an error code, a null archive, or the archive's members in index order. */
  datatype ZipSource = ZipOpenError | ZipNull | ZipOpened(members: seq<Member>)

  function Names(ms: seq<Member>): (r: seq<string>)
    ensures |r| == |ms| && forall i | 0 <= i < |ms| :: r[i] == ms[i].name
  {
    seq(|ms|, i requires 0 <= i < |ms| => ms[i].name)
  }

  /** zip_name_locate: the index of the first member with this name. */
  function Locate(ms: seq<Member>, name: string): (r: Option<nat>)
    ensures r.Some? ==> r.value < |ms| && ms[r.value].name == name
    ensures r.Some? ==> forall j | 0 <= j < r.value :: ms[j].name != name
    ensures r.None? ==> forall j | 0 <= j < |ms| :: ms[j].name != name
  {
    if ms == [] then None
    else if ms[0].name == name then Some(0)
    else match Locate(ms[1..], name)
      case None => None
      case Some(k) => Some(k + 1)
  }

  /** What processing a name yields: the located member's data, or nothing when it cannot be located. */
  function Lookup(ms: seq<Member>, name: string): MemberData
  {
    match Locate(ms, name)
    case None => Unreadable
    case Some(k) => ms[k].data
  }

  /** A name that becomes a frame: it can be extracted and it is not the timing member. */
  predicate IsFrame(ms: seq<Member>, name: string)
  {
    Lookup(ms, name).Readable? && name != TimingName
  }

  function Repeat(d: u32, n: nat): (r: seq<u32>)
    ensures |r| == n && forall i | 0 <= i < n :: r[i] == d
  {
    seq(n, _ => d)
  }

  // ---------------------------------------------------------------------------
  // media/si_zip.cpp

  /**
   * read_timing of media/si_zip.cpp: `count` delays, each the number fscanf reads as a
   * Uint32, or 0 once there is none left to read.
   */
  function Timing(numbers: seq<int>, count: nat): (r: seq<u32>)
    ensures |r| == count
    ensures forall i | 0 <= i < count :: r[i] == if i < |numbers| then Wrap(numbers[i]) else 0
  {
    seq(count, i requires 0 <= i < count => if i < |numbers| then Wrap(numbers[i]) else 0)
  }

  method ReadTiming(numbers: seq<int>, count: nat) returns (delays: seq<u32>)
    ensures delays == Timing(numbers, count)
  {
    delays := [];
    var i := 0;
    while i < count
      invariant 0 <= i <= count
      invariant delays == Timing(numbers, i)
    {
      var delay: u32 := 0;
      if i < |numbers| {
        delay := Wrap(numbers[i]);
      }
      delays := delays + [delay];
      i := i + 1;
    }
  }

  /** The observable state of the Anim object being filled. */
  datatype Assembly = Assembly(textures: seq<Texture>, width: int, height: int, delays: seq<u32>)

  /** The Anim right after the default delays are pushed: fileQty-1 delays of 40 ms, nothing else. */
  function SiZipStart(count: nat): Assembly
  {
    Assembly([], 0, 0, Repeat(ZipDefaultDelay, count))
  }

  /**
   * One name of the loop: the timing member replaces the delays; any other extracted
   * member pushes its texture (even a null one) and then sets the size to that PNG's
   * (0 x 0 when it failed to decode); a member that cannot be extracted changes nothing.
   */
  function SiZipMember(a: Assembly, ms: seq<Member>, name: string, count: nat): Assembly
  {
    match Lookup(ms, name)
    case Unreadable => a
    case Readable(numbers, png) =>
      if name == TimingName then a.(delays := Timing(numbers, count))
      else Assembly(a.textures + [PngTexture(png)], PngWidth(png), PngHeight(png), a.delays)
  }

  function PngWidth(p: PngResult): nat
  {
    if p.PngFailed? then 0 else p.width
  }

  function PngHeight(p: PngResult): nat
  {
    if p.PngFailed? then 0 else p.height
  }

  /** The loop over the names, in the order given. */
  function SiZipRun(a: Assembly, ms: seq<Member>, names: seq<string>, count: nat): Assembly
    decreases |names|
  {
    if names == [] then a
    else SiZipMember(SiZipRun(a, ms, names[..|names| - 1], count), ms, names[|names| - 1], count)
  }

  /** The PNG results of the frame members, in visiting order. */
  function FramePngs(ms: seq<Member>, names: seq<string>): (r: seq<PngResult>)
    ensures |r| <= |names|
    decreases |names|
  {
    if names == [] then []
    else
      var rest := FramePngs(ms, names[..|names| - 1]);
      var name := names[|names| - 1];
      if IsFrame(ms, name) then rest + [Lookup(ms, name).png] else rest
  }

  function PngTextures(ps: seq<PngResult>): (r: seq<Texture>)
    ensures |r| == |ps| && forall i | 0 <= i < |ps| :: r[i] == PngTexture(ps[i])
  {
    seq(|ps|, i requires 0 <= i < |ps| => PngTexture(ps[i]))
  }

  /**
   * What the loop assembles: one texture per frame member in visiting order (the timing
   * member is never a frame), the size of the last frame member, and delays that are
   * either untouched or exactly `count` values from the timing member.
   */
  lemma {:induction false} SiZipAssembles(a: Assembly, ms: seq<Member>, names: seq<string>, count: nat)
    ensures var r := SiZipRun(a, ms, names, count);
      var pngs := FramePngs(ms, names);
      r.textures == a.textures + PngTextures(pngs) &&
      (pngs == [] ==> r.width == a.width && r.height == a.height) &&
      (pngs != [] ==> r.width == PngWidth(pngs[|pngs| - 1]) && r.height == PngHeight(pngs[|pngs| - 1])) &&
      (r.delays == a.delays || |r.delays| == count) &&
      ((forall i | 0 <= i < |names| :: names[i] != TimingName) ==> r.delays == a.delays)
    decreases |names|
  {
    if names != [] {
      var init := names[..|names| - 1];
      SiZipAssembles(a, ms, init, count);
      var pngs := FramePngs(ms, init);
      var name := names[|names| - 1];
      if IsFrame(ms, name) {
        assert PngTextures(pngs + [Lookup(ms, name).png]) == PngTextures(pngs) + [PngTexture(Lookup(ms, name).png)];
      }
      assert forall i | 0 <= i < |init| :: init[i] == names[i];
    }
  }

  /**
   * libzip_load of media/si_zip.cpp: no Anim for an archive that cannot be opened or has
   * no members; otherwise fileQty-1 default delays, then every member in sorted name
   * order.
   */
  method SiZipLoad(src: ZipSource) returns (anim: SiAnim?)
    ensures anim != null <==> src.ZipOpened? && |src.members| > 0
    ensures anim != null ==>
      var ms := src.members;
      fresh(anim) && anim.totalDuration == 0 &&
      AssemblyOf(anim) == SiZipRun(SiZipStart(|ms| - 1), ms, SortNames(Names(ms)), |ms| - 1)
  {
    if !src.ZipOpened? {
      return null;
    }
    var ms := src.members;
    var fileQty := |ms|;
    if fileQty <= 0 {
      return null;
    }
    var animQty := fileQty - 1;
    anim := new SiAnim();
    PushDefaultDelays(anim, animQty);
    var names := SortNames(Names(ms));
    SiZipFill(anim, ms, names, animQty);
  }

  /** What an Anim holds, as the loop sees it. */
  function AssemblyOf(anim: SiAnim): Assembly
    reads anim
  {
    Assembly(anim.textures, anim.width, anim.height, anim.delays)
  }

  /** The animQty pushDelay(DEFAULT_DELAY_MS) calls on a new Anim. */
  method PushDefaultDelays(anim: SiAnim, animQty: nat)
    requires AssemblyOf(anim) == SiZipStart(0)
    modifies anim
    ensures AssemblyOf(anim) == SiZipStart(animQty) && anim.totalDuration == old(anim.totalDuration)
  {
    var i := 0;
    while i < animQty
      invariant 0 <= i <= animQty
      invariant AssemblyOf(anim) == SiZipStart(i) && anim.totalDuration == old(anim.totalDuration)
    {
      anim.PushDelay(ZipDefaultDelay);
      i := i + 1;
    }
  }

  /** The loop over the names of media/si_zip.cpp. */
  method SiZipFill(anim: SiAnim, ms: seq<Member>, names: seq<string>, count: nat)
    modifies anim
    ensures AssemblyOf(anim) == SiZipRun(old(AssemblyOf(anim)), ms, names, count)
    ensures anim.totalDuration == old(anim.totalDuration)
  {
    var k := 0;
    while k < |names|
      invariant 0 <= k <= |names|
      invariant AssemblyOf(anim) == SiZipRun(old(AssemblyOf(anim)), ms, names[..k], count)
      invariant anim.totalDuration == old(anim.totalDuration)
    {
      var name := names[k];
      var data := Lookup(ms, name);
      assert names[..k + 1][..k] == names[..k];
      if data.Readable? {
        if name == TimingName {
          var delayArray := ReadTiming(data.numbers, count);
          anim.SetDelayArray(delayArray);
        } else {
          anim.PushTexture(PngTexture(data.png));
          anim.SetWidth(PngWidth(data.png));
          anim.SetHeight(PngHeight(data.png));
        }
      }
      k := k + 1;
    }
    assert names[..k] == names;
  }

  // ---------------------------------------------------------------------------
  // anim.cpp

  /**
   * read_timing of anim.cpp: fscanf writes the first `count` slots in place; a slot it
   * finds no number for keeps its value.
   */
  function TimingInPlace(d: seq<u32>, numbers: seq<int>, count: nat): (r: seq<u32>)
    ensures |r| == |d|
    ensures forall i | 0 <= i < |d| :: r[i] == if i < count && i < |numbers| then Wrap(numbers[i]) else d[i]
  {
    seq(|d|, i requires 0 <= i < |d| => if i < count && i < |numbers| then Wrap(numbers[i]) else d[i])
  }

  /** The observable state of the anim_t being filled: frames counted so far, size, delays. */
  datatype ZipRecord = ZipRecord(frames: seq<Texture>, w: int, h: int, delays: seq<u32>)

  /**
   * One name of anim.cpp's loop: the timing member is read into the delays; a PNG that
   * decodes becomes the next frame and sets the size; one that does not is not counted.
   */
  function AnimZipMember(z: ZipRecord, ms: seq<Member>, name: string, count: nat): ZipRecord
  {
    match Lookup(ms, name)
    case Unreadable => z
    case Readable(numbers, png) =>
      if name == TimingName then z.(delays := TimingInPlace(z.delays, numbers, count))
      else if png.PngFailed? then z
      else ZipRecord(z.frames + [PngTexture(png)], png.width, png.height, z.delays)
  }

  function AnimZipRun(z: ZipRecord, ms: seq<Member>, names: seq<string>, count: nat): (r: ZipRecord)
    ensures |r.delays| == |z.delays|
    decreases |names|
  {
    if names == [] then z
    else AnimZipMember(AnimZipRun(z, ms, names[..|names| - 1], count), ms, names[|names| - 1], count)
  }

  /** Every name yields at most one frame, so an archive never has more frames than members. */
  lemma {:induction false} AnimZipFrameBound(z: ZipRecord, ms: seq<Member>, names: seq<string>, count: nat)
    ensures |AnimZipRun(z, ms, names, count).frames| <= |z.frames| + |names|
    decreases |names|
  {
    if names != [] {
      AnimZipFrameBound(z, ms, names[..|names| - 1], count);
    }
  }

  /**
   * anim.cpp as written stores each decoded or failed PNG at tex[num_frame] of an array of
   * file_count-1 slots. The slot each frame member is stored in, in visiting order.
   */
  function AnimZipSlotsAsWritten(ms: seq<Member>, names: seq<string>): (r: seq<nat>)
    decreases |names|
  {
    if names == [] then []
    else
      var init := names[..|names| - 1];
      var name := names[|names| - 1];
      var before := AnimZipSlotsAsWritten(ms, init);
      if IsFrame(ms, name) then before + [|AnimZipRun(ZipRecord([], 0, 0, []), ms, init, 0).frames|] else before
  }

  /**
   * An archive holding one PNG and no timing member: anim.cpp allocates file_count-1 = 0
   * texture slots and then stores the PNG in slot 0, past the end of the array.
   */
  lemma AnimZipOverflowAsWritten()
    ensures var ms := [Member("a.png", Readable([], PngLoaded(7, 16, 16)))];
      var slots := AnimZipSlotsAsWritten(ms, SortNames(Names(ms)));
      |slots| == 1 && slots[0] >= |ms| - 1
  {
    var ms := [Member("a.png", Readable([], PngLoaded(7, 16, 16)))];
    assert Names(ms) == ["a.png"];
    assert SortNames(["a.png"]) == ["a.png"];
    assert Lookup(ms, "a.png") == ms[0].data;
    assert IsFrame(ms, "a.png");
  }

  /**
   * With one slot per member every store is in bounds: the frame stored for the i-th name
   * goes to a slot below i + 1, so below the number of names.
   */
  lemma {:induction false} AnimZipSlotsInBounds(ms: seq<Member>, names: seq<string>)
    ensures forall i | 0 <= i < |AnimZipSlotsAsWritten(ms, names)| :: AnimZipSlotsAsWritten(ms, names)[i] < |names|
    ensures |AnimZipSlotsAsWritten(ms, names)| <= |names|
    decreases |names|
  {
    if names != [] {
      var init := names[..|names| - 1];
      AnimZipSlotsInBounds(ms, init);
      AnimZipFrameBound(ZipRecord([], 0, 0, []), ms, init, 0);
    }
  }

  /** The corrected loader's record before the loop: no frames, size 0 x 0, every slot's delay 40 ms. */
  function AnimZipStart(slots: nat): ZipRecord
  {
    ZipRecord([], 0, 0, Repeat(ZipDefaultDelay, slots))
  }

  /** read_timing into the delay array, in place. */
  method ReadTimingInto(delay: array<u32>, numbers: seq<int>, count: nat)
    requires count <= delay.Length
    modifies delay
    ensures delay[..] == TimingInPlace(old(delay[..]), numbers, count)
  {
    var i := 0;
    while i < count
      invariant 0 <= i <= count
      invariant forall j | 0 <= j < delay.Length ::
        delay[j] == if j < i && j < |numbers| then Wrap(numbers[j]) else old(delay[j])
    {
      if i < |numbers| {
        delay[i] := Wrap(numbers[i]);
      }
      i := i + 1;
    }
  }

  /**
   * libzip_load of anim.cpp with the arrays sized to file_count (one slot per member), so
   * that every store is in bounds and num_frame never exceeds the delays: nothing for an
   * archive that cannot be opened or has no members; otherwise the frames, size and
   * delays are those of the loop over the sorted names.
   */
  method AnimZipLoad(src: ZipSource) returns (anim: AnimT?)
    ensures anim != null <==> src.ZipOpened? && |src.members| > 0
    ensures anim != null ==>
      var ms := src.members;
      var z := AnimZipRun(AnimZipStart(|ms|), ms, SortNames(Names(ms)), |ms| - 1);
      fresh(anim) && fresh(anim.tex) && fresh(anim.delay) &&
      anim.tex.Length == |ms| && anim.delay.Length == |ms| && 0 <= anim.numFrame <= |ms| &&
      anim.tex[..anim.numFrame] == z.frames && anim.w == z.w && anim.h == z.h && anim.delay[..] == z.delays &&
      anim.totalDuration == 0
  {
    if !src.ZipOpened? {
      return null;
    }
    var ms := src.members;
    var fileCount := |ms|;
    if fileCount <= 0 {
      return null;
    }
    anim := new AnimT(fileCount);
    FillDelays(anim.delay, ZipDefaultDelay);
    var names := SortNames(Names(ms));
    SortedNamesCount(ms);
    AnimZipFill(anim, ms, names, fileCount - 1);
  }

  /** The loop over the names, each stored in the next free slot. */
  method AnimZipFill(anim: AnimT, ms: seq<Member>, names: seq<string>, count: nat)
    requires count < anim.delay.Length && |names| <= anim.tex.Length
    requires anim.numFrame == 0 && anim.w == 0 && anim.h == 0 && anim.delay[..] == Repeat(ZipDefaultDelay, anim.delay.Length)
    modifies anim, anim.tex, anim.delay
    ensures anim.tex == old(anim.tex) && anim.delay == old(anim.delay) && anim.totalDuration == old(anim.totalDuration)
    ensures ZipFilled(anim, AnimZipRun(AnimZipStart(anim.delay.Length), ms, names, count))
  {
    ghost var start := AnimZipStart(anim.delay.Length);
    var k := 0;
    while k < |names|
      invariant 0 <= k <= |names|
      invariant anim.tex == old(anim.tex) && anim.delay == old(anim.delay) && anim.totalDuration == old(anim.totalDuration)
      invariant ZipFilled(anim, AnimZipRun(start, ms, names[..k], count))
    {
      ghost var z := AnimZipRun(start, ms, names[..k], count);
      AnimZipFrameBound(start, ms, names[..k], count);
      assert names[..k + 1][..k] == names[..k];
      AnimZipStep(anim, z, ms, names[k], count);
      k := k + 1;
    }
    assert names[..k] == names;
  }

  /** There are as many sorted names as members. */
  lemma SortedNamesCount(ms: seq<Member>)
    ensures |SortNames(Names(ms))| == |ms|
  {
    assert |SortNames(Names(ms))| == |multiset(SortNames(Names(ms)))| == |multiset(Names(ms))|;
  }

  /** Every delay slot set to the same value. */
  method FillDelays(delay: array<u32>, d: u32)
    modifies delay
    ensures delay[..] == Repeat(d, delay.Length)
  {
    var i := 0;
    while i < delay.Length
      invariant 0 <= i <= delay.Length
      invariant forall j | 0 <= j < i :: delay[j] == d
    {
      delay[i] := d;
      i := i + 1;
    }
  }

  /** The anim_t holds the record: its counted frames in the first slots, its size and its delays. */
  ghost predicate ZipFilled(anim: AnimT, z: ZipRecord)
    reads anim, anim.tex, anim.delay
  {
    0 <= anim.numFrame <= anim.tex.Length && anim.tex[..anim.numFrame] == z.frames &&
    anim.w == z.w && anim.h == z.h && anim.delay[..] == z.delays
  }

  /** One name of the corrected loop. */
  method AnimZipStep(anim: AnimT, ghost z: ZipRecord, ms: seq<Member>, name: string, count: nat)
    requires count < anim.delay.Length
    requires ZipFilled(anim, z) && |z.frames| < anim.tex.Length
    modifies anim, anim.tex, anim.delay
    ensures anim.tex == old(anim.tex) && anim.delay == old(anim.delay) && anim.totalDuration == old(anim.totalDuration)
    ensures ZipFilled(anim, AnimZipMember(z, ms, name, count))
  {
    var data := Lookup(ms, name);
    if data.Readable? {
      if name == TimingName {
        ReadTimingInto(anim.delay, data.numbers, count);
      } else {
        var frameSlot := anim.numFrame;
        anim.tex[frameSlot] := PngTexture(data.png);
        if data.png.PngLoaded? {
          anim.w := data.png.width;
          anim.h := data.png.height;
          anim.numFrame := anim.numFrame + 1;
          assert anim.tex[..anim.numFrame] == old(anim.tex[..anim.numFrame]) + [PngTexture(data.png)];
        } else {
          assert anim.tex[..anim.numFrame] == old(anim.tex[..anim.numFrame]);
        }
      }
    }
  }
}
