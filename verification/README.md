# sdl_item animation and input core in Dafny

sdl_item is a small sprite library on top of SDL2. A scene is a linked list of items. Each item has a rectangle, animations for its normal, hover and click looks, callbacks, and an optional string. The library decides which frame of each animation is on screen at a given tick. It builds animations from GIF files, PNG files, zip archives of PNGs or a solid colour, pans a virtual camera smoothly, and routes mouse and keyboard events to the items under the pointer. The repository holds two generations of this code, and both are modelled:

- **The C++ layer.**
  - sdl.cpp: the frame scheduler `get_current_frame`, the camera setters and `sdl_loop_manager`, the mouse, position and keyboard managers, the callback tables, and the animation choice and CENTER layout of `sdl_blit_item`.
  - anim.cpp: the GIF compositor, the zip and PNG loaders, `anim_load` and `anim_create_color`.
  - sdl_item.cpp: the `item_t` list and the anim-array setters.
  - The `SiAnim` class, the `SdlItem` class, and media/si_gif.cpp, media/si_zip.cpp and media/reader.cpp.
- **The older C layer.**
  - sdl.c: the stateful `sdl_blit_anim` stepper, the pan-only camera, the mouse manager that sets frame numbers, and the keyboard editor.
  - anim.c: the GIF variant that clears the canvas, `anim_load` and `anim_reset_anim`.
  - item.c: the older item and its list.

Each modelled source file keeps its own form:

- **Stateful code is imperative Dafny.** Camera statics, the input state, items and animation objects are classes. Canvases and texture arrays are arrays. Loops are `while` loops with invariants.
- **Every method is proved against a specification function.** Examples are `CurrentFrame`, the compositor `Run`, `Walk`/`Passes` for a dispatcher pass, `TypeKey` for the text editor, and `AnimZipRun` for the zip loop. Lemmas then state what the source promises about those functions.
- **Callbacks are not run.** Each call is appended to a log, so "fires exactly once" and "never fires" are statements about the log.
- **Uint32 ticks and delays wrap explicitly** (module `U32`).
- **The camera's doubles are exact reals.** The C cast to int is truncation toward zero.

Three behaviours of the source are modelled as written and proved as such:

- After a GIF image whose disposal is "do not dispose", the next image is not drawn at all (`Gif.AfterDoNotDispose`). `Gif.RunIntended` is the GIF89a reading, given beside it.
- anim.c clears the whole canvas before drawing an image whose disposal is "restore to background" or "restore to previous".
- A one-shot animation shows frame 0, not its last frame, at exactly its end tick (`Scheduler.OneShotAtEndTick`).

The item declarations in item.h list no `last` link and give `item_list_add` another signature. The model follows item.c, which uses `last`.

## Model

| member | source | states |
|---|---|---|
| U32.Wrap | sdl.cpp:593 | a value stored in a Uint32 is the unbounded value modulo 2^32, unchanged when it already fits |
| U32.Add32 | sdl.cpp:602 | Uint32 addition equals the exact sum, or the sum less 2^32 when it overflows |
| U32.Sub32 | sdl.cpp:614 | Uint32 subtraction equals the exact difference, or the difference plus 2^32 when it goes below zero |
| U32.WrapAddLeft | sdl.cpp:607 | accumulating a running Uint32 sum term by term gives the wrapped exact sum |
| Media.Rgba | media/si_gif.cpp:166-169 | a canvas pixel written as the bytes A, B, G, R carries R in its top byte and A in its bottom byte |
| Media.PngTexture | anim.cpp:225-373 | the PNG decoder yields a null texture exactly when it fails, and otherwise one whose queried size is the decoded size |
| Media.SiAnim.constructor | SiAnim.cpp:24-27 | a new animation has no frame, no delay, size 0 x 0 and total duration 0 |
| Media.SiAnim.SetWidth | SiAnim.cpp:53-56 | only the width changes |
| Media.SiAnim.SetHeight | SiAnim.cpp:41-44 | only the height changes |
| Media.SiAnim.PushTexture | SiAnim.cpp:65-84 | the frame is appended, each dimension becomes the larger of the old one and the texture's, delays are untouched, and the animation still covers every frame it covered |
| Media.SiAnim.GetTexture | SiAnim.cpp:87-90 | the texture returned is one of the animation's frames |
| Media.SiAnim.FrameQty | SiAnim.cpp:105-108 | the frame count is the number of textures, independent of the delays |
| Media.SiAnim.SetTotalDuration | SiAnim.cpp:99-102 | only the cached total duration changes |
| Media.SiAnim.SetDelayArray | SiAnim.cpp:117-120 | the delays are replaced as a whole; frames and size are untouched |
| Media.SiAnim.PushDelay | SiAnim.cpp:123-126 | one delay is appended; frames and size are untouched |
| AnimRecord.AnimT.constructor | anim.cpp:391-396 | a cleared record: no frame, size 0 x 0, total 0, and `slots` null textures and zero delays |
| AnimRecord.MinimalAnim | sdl.cpp:1152-1167 | a one-frame 1 x 1 animation with a zero delay and a zero total duration |
| AnimRecord.LegacyAnimT.constructor | anim.c:74-81 | a cleared record: no frame, frame 0 shown, no start time, `slots` null textures and zero delays |
| AnimRecord.LegacyAnimT.Reset | anim.c:495-499 | playback restarts at frame 0 with no start time; frames, size and delays are untouched |
| Scheduler.Sum | sdl.cpp:598-608 | the exact total of a list of delays is never negative and is 0 for no delay |
| Scheduler.SumStep | sdl.cpp:598-608 | the running total of the first j+1 delays extends that of the first j by delay j |
| Scheduler.SumPrefixMonotone | sdl.cpp:598-608 | running totals of delays never decrease |
| Scheduler.ScanFrom | sdl.cpp:598-608 | the scan stops at an index between its start and the number of frames |
| Scheduler.FirstEndAfter | sdl.cpp:598-608 | the scan's answer is a frame index or the frame count |
| Scheduler.CurrentFrame | sdl.cpp:584-630 | frame 0 when the total duration is 0, and otherwise always a valid frame index |
| Scheduler.ScanFromIsFirst | sdl.cpp:598-608 | the scan returns the first frame whose wrapped end tick lies after the clock, and no earlier frame ends after it |
| Scheduler.FirstEndAfterIsFirst | sdl.cpp:598-608 | the scan's answer is the least frame ending after the clock (the frame count when none does) |
| Scheduler.FirstEndAfterAtMost | sdl.cpp:598-608 | any frame ending after the clock bounds the scan's answer from above |
| Scheduler.FirstEndAfterSlot | sdl.cpp:598-608 | without wrap-around, a clock inside the animation falls in the time slot of the frame the scan returns |
| Scheduler.LoopingFrameSlot | sdl.cpp:612-626 | a looping animation whose total is the sum of its delays shows the frame whose slot holds the elapsed time modulo the total |
| Scheduler.OneShotFrameSlot | sdl.cpp:590-609 | a one-shot animation shows the last frame after its end tick, the first before its start, and in between the frame whose slot holds the elapsed time |
| Scheduler.OneShotAtEndTick | sdl.cpp:592-609 | exactly at its end tick a one-shot animation shows frame 0, not the last frame |
| Scheduler.LoopingExample | sdl.cpp:612-626 | delays 100, 200, 300 started at 0 show frame 0 at tick 0, frame 1 at 150, frame 0 again at 650, and frame 2 long after the end when not looping |
| Scheduler.GetCurrentFrame | sdl.cpp:584-630 | the two loops over the delay array return CurrentFrame of the first numFrame delays |
| Camera.Trunc | sdl.cpp:504 | the int cast of a double truncates toward zero: the result lies within 1 of the value on the zero side |
| Camera.TruncBetween | sdl.cpp:504-505 | a truncated value lying between two integers stays between them |
| Camera.InterpolateZoomBetween | sdl.cpp:506 | inside the transition window the interpolated zoom lies between the start and the target, equals the start at 0 ms and the target at 150 ms |
| Camera.ScaleByFraction | sdl.cpp:504-506 | a fraction in [0, 1] of a signed distance lies between 0 and that distance |
| Camera.InterpolateBetween | sdl.cpp:504-505 | inside the window the truncated pan lies between the start and the target, equals the start at 0 ms and the target at 150 ms |
| Camera.SetXStep | sdl.cpp:944-952 | the start always becomes the shown value; an unchanged target leaves everything else alone; a new target is stored and restarts the transition at the current clock; no field other than the start, the target and the transition tick changes |
| Camera.SetYStep | sdl.cpp:956-964 | the same as SetXStep for the vertical pan |
| Camera.SetZStep | sdl.cpp:968-976 | an unchanged zoom changes nothing, the start included; a new zoom is stored, the start becomes the shown zoom and the transition restarts; no other field changes |
| Camera.ForceXStep | sdl.cpp:1001-1006 | target, start and shown pan all become x and nothing else changes |
| Camera.ForceYStep | sdl.cpp:1010-1015 | target, start and shown pan all become y and nothing else changes |
| Camera.ForceZStep | sdl.cpp:1019-1024 | target, start and shown zoom all become z and nothing else changes |
| Camera.LoopStep | sdl.cpp:485-519 | the frame records the clock and never changes the targets or the transition start tick |
| Camera.LoopStepBounds | sdl.cpp:502-518 | with a clock not behind the transition start, every shown value lies between its start and its target, and equals the target once the 150 ms window is over |
| Camera.ForcedStaysPut | sdl.cpp:1001-1006 | after a forced pan, the next frame shows exactly the forced value, inside or after the window |
| Camera.Camera.constructor | sdl.cpp:32-45 | the statics start with pan 0, zoom 1.0 and no transition |
| Camera.Camera.SetX | sdl.cpp:944-952 | the camera state afterwards is SetXStep of the state before |
| Camera.Camera.SetY | sdl.cpp:956-964 | the camera state afterwards is SetYStep of the state before |
| Camera.Camera.SetZ | sdl.cpp:968-976 | the camera state afterwards is SetZStep of the state before |
| Camera.Camera.ForceX | sdl.cpp:1001-1006 | the camera state afterwards is ForceXStep of the state before |
| Camera.Camera.ForceY | sdl.cpp:1010-1015 | the camera state afterwards is ForceYStep of the state before |
| Camera.Camera.ForceZ | sdl.cpp:1019-1024 | the camera state afterwards is ForceZStep of the state before |
| Camera.Camera.LoopManager | sdl.cpp:485-519 | the camera state afterwards is LoopStep of the state before at the frame's clock reading |
| LegacyCamera.SetXStep | sdl.c:502-509 | an unchanged target changes nothing; a new target is stored, the start becomes the shown pan and the transition restarts at the setter's clock reading |
| LegacyCamera.SetYStep | sdl.c:510-517 | the same as SetXStep for the vertical pan |
| LegacyCamera.ForceXStep | sdl.c:529-534 | target, start and shown horizontal pan become x and nothing else changes |
| LegacyCamera.ForceYAsWritten | sdl.c:535-540 | as written: target and shown vertical pan become y, but it is the horizontal start that takes y, and the vertical start stays stale; no other field changes |
| LegacyCamera.ForceYStep | sdl.c:535-540 | as intended: target, start and shown vertical pan become y and nothing else changes |
| LegacyCamera.LoopStep | sdl.c:251-278 | a frame never changes the targets or the transition start tick |
| LegacyCamera.LoopStepBounds | sdl.c:265-277 | with a clock not behind the transition start, the shown pan lies between start and target, and equals the target once the 150 ms window is over |
| LegacyCamera.ForceYAsWrittenMovesX | sdl.c:535-540 | as written, forcing y = 40 on a camera resting at 0, 75 ms into a transition, makes the next frame show x = 20 instead of 0 |
| LegacyCamera.ForceYKeepsX | sdl.c:535-540 | forcing y as intended leaves the horizontal course of the next frame unchanged and shows exactly y |
| LegacyCamera.LegacyCamera.constructor | sdl.c:30-36 | the pan statics start at 0 with no transition |
| LegacyCamera.LegacyCamera.SetX | sdl.c:502-509 | the state afterwards is SetXStep of the state before |
| LegacyCamera.LegacyCamera.SetY | sdl.c:510-517 | the state afterwards is SetYStep of the state before |
| LegacyCamera.LegacyCamera.ForceX | sdl.c:529-534 | the state afterwards is ForceXStep of the state before |
| LegacyCamera.LegacyCamera.ForceY | sdl.c:535-540 | the state afterwards is the corrected ForceYStep of the state before |
| LegacyCamera.LegacyCamera.LoopManager | sdl.c:251-278 | the state afterwards is LoopStep of the state before at the clock read after frame pacing |
| Gif.ApplyExtension | media/si_gif.cpp:127-143 | a non-GCE block changes nothing; a GCE sets the transparency flag from bit 0, the disposal to bits 2-4 of byte 0 (so in 0..7), the delay to the little-endian hundredths of bytes 1-2 times 10 ms, or the 40 ms default when they are 0 (so always positive, and 40 exactly when the stored hundredths are 0 or 4), and takes the transparent colour from byte 3 only when the flag is set |
| Gif.LastGce | media/si_gif.cpp:127-143 | the index found is a GCE block with no GCE after it, and none is found only when the image has no GCE |
| Gif.ReadGcesLastWins | media/si_gif.cpp:127-143 | the last GCE of an image alone decides its transparency flag, disposal and delay; an image without a GCE inherits all values from the images before it |
| Gif.Blank | media/si_gif.cpp:111 | the canvas before the first image has the screen's size and is transparent everywhere |
| Gif.RasterIndexBound | media/si_gif.cpp:159 | the raster index x + y * width of a position inside the image lies inside the raster |
| Gif.MulLe | media/si_gif.cpp:158-159 | multiplying by a natural number preserves order |
| Gif.RasterAt | media/si_gif.cpp:159 | the byte read for a canvas position is one of the image's raster bytes |
| Gif.Drawn | media/si_gif.cpp:154-172 | drawing an image keeps the canvas's dimensions |
| Gif.Cleared | media/si_gif.cpp:186-199 | restore-to-background keeps the canvas's dimensions |
| Gif.RunWith | media/si_gif.cpp:113-207 | after k images there are k frames and k delays, every frame and both canvases have the screen's size, and drawing is never switched off unless "do not dispose" suppresses the next image |
| Gif.Run | media/si_gif.cpp:113-207 | the loop as written yields one screen-sized frame and one delay per image |
| Gif.RunIntended | media/si_gif.cpp:178-185 | read as GIF89a reads "do not dispose", every image is drawn |
| Gif.RunWithPrefix | media/si_gif.cpp:175-176 | frames and delays already pushed are never revised by later images |
| Gif.RunWithGrows | media/si_gif.cpp:175-176 | one more image appends exactly one frame and one delay and leaves the earlier ones alone |
| Gif.AfterDisposeBackground | media/si_gif.cpp:186-199 | after a restore-to-background image, the next frame is the next image drawn onto the emitted frame with the first image's rectangle made transparent |
| Gif.AfterDisposePrevious | media/si_gif.cpp:145-149 | after a restore-to-previous image, the next frame is the next image drawn onto the canvas as it was before that image was drawn |
| Gif.AfterDoNotDispose | media/si_gif.cpp:152-184 | as written, the image after a "do not dispose" image is not drawn at all: its frame repeats the one before |
| Gif.AfterDoNotDisposeIntended | media/si_gif.cpp:182-185 | read as GIF89a intends, the next image is drawn on top of the kept frame |
| Gif.SingleOpaqueImage | media/si_gif.cpp:151-172 | a lone full-screen image without transparency comes out as its raster mapped through its palette, every pixel opaque |
| Gif.LegacyRun | anim.c:87-144 | anim.c yields one screen-sized frame and one delay per image |
| Gif.LegacyRestoreStartsOver | anim.c:118-124 | in anim.c an image with a restore disposal of its own is drawn onto a cleared canvas: every earlier image is forgotten |
| Gif.LegacyOtherwiseAccumulates | anim.c:126-143 | with any other disposal anim.c draws the image over the frame emitted before it |
| GifLoader.Snapshot | media/si_gif.cpp:104-105 | the grid read off a surface has its dimensions and holds its pixels |
| GifLoader.SnapshotIs | media/si_gif.cpp:104-105 | a surface whose every pixel matches a grid of its size reads back as that grid |
| GifLoader.DrawImage | media/si_gif.cpp:152-173 | the raster loop leaves the surface holding Drawn of what it held: see-through pixels kept, the others opaque palette colours, outside the rectangle nothing touched |
| GifLoader.DrawRow | media/si_gif.cpp:156-171 | one more row of the rectangle is painted, all other pixels as they were |
| GifLoader.ClearRect | media/si_gif.cpp:186-199 | restore-to-background leaves the surface holding Cleared of what it held |
| GifLoader.CopySurface | media/si_gif.cpp:148 | after the memcpy the destination holds exactly the source's pixels |
| GifLoader.ZeroSurface | anim.c:120-123 | after the memset the surface is transparent everywhere |
| GifLoader.ReadExtensions | media/si_gif.cpp:127-143 | the extension loop returns ReadGces of the values carried in |
| GifLoader.CompositeImage | media/si_gif.cpp:115-206 | one image of the loop emits the compositor's frame and GCE values and leaves both surfaces and the draw flag as the compositor's next state |
| GifLoader.NewSurface | media/si_gif.cpp:104-111 | a fresh surface of the screen's size, transparent everywhere |
| GifLoader.LegacyCompositeImage | anim.c:100-143 | one image of anim.c's loop emits LegacyShown, leaves it on the surface and returns the GCE values in force |
| GifLoader.FrameTextures | media/si_gif.cpp:176 | one texture per frame, each of the screen's size holding that frame's pixels |
| GifLoader.FrameTexturesSnoc | media/si_gif.cpp:176 | one more frame appends one texture |
| GifLoader.RunStep | media/si_gif.cpp:113-207 | one more image extends the compositor's run by one step, one frame and one delay |
| GifLoader.LegacyRunStep | anim.c:87-144 | one more image extends anim.c's run by the frame drawn and the delay read |
| GifLoader.SiGifLoad | media/si_gif.cpp:46-214 | nothing is returned exactly when the file cannot be opened or slurped; otherwise the SiAnim has the screen's size, a zero total, and exactly the compositor's frames as textures and its delays |
| GifLoader.AnimGifLoad | anim.cpp:48-220 | nothing is returned exactly when opening or slurping fails; otherwise the anim_t has one slot per image, the screen's size, a zero total, and exactly the compositor's frames and delays |
| GifLoader.AnimFilledAll | anim.cpp:119-213 | once every image is processed, the arrays hold all the compositor's frames and delays |
| GifLoader.StoreSlot | anim.cpp:181-182 | slot i receives the texture and the delay; the slots before it are kept |
| GifLoader.AnimGifStep | anim.cpp:119-212 | one image of anim.cpp's loop keeps the surfaces and the filled slots in step with the compositor |
| GifLoader.LegacyGifLoad | anim.c:36-150 | nothing is returned exactly when the file cannot be opened (a failed slurp is not checked); otherwise the anim_t holds anim.c's frames and delays, at frame 0 with no start time |
| GifLoader.LegacyFilledAll | anim.c:87-144 | once every image is processed, the arrays hold all of anim.c's frames and delays |
| GifLoader.LegacyGifStep | anim.c:87-144 | one image of anim.c's loop keeps the surface and the filled slots in step with LegacyRun |
| LegacyPlayback.BlitStep | sdl.c:313-332 | without a range the cursor always stays inside the animation |
| LegacyPlayback.BlitStepOutcomes | sdl.c:313-332 | a frame not yet due stays, with its start tick fixed; a due frame moves on by one and restarts its tick; the call reports a wrap exactly when moving on reaches the end of the range (or of the animation), and a wrap returns to start (or to 0) |
| LegacyPlayback.Play | sdl.c:307-333 | any number of calls leaves the cursor inside the animation |
| LegacyPlayback.BlitStepStaysInRange | sdl.c:316-330 | one call keeps the cursor inside the animation and inside the range [start, end) it plays |
| LegacyPlayback.PlayStaysInRange | sdl.c:311-330 | over any sequence of calls current_frame keeps indexing the texture and delay arrays and stays in its range |
| LegacyPlayback.NoDelayCycles | sdl.c:316-328 | with zero delays every call shows the next frame, cycling, and reports a wrap exactly on the last frame |
| LegacyPlayback.BlitAnim | sdl.c:307-333 | the cursor and the returned wrap flag are BlitStep of the cursor before; frames, delays and size are untouched |
| NameSort.LexLeTotal | anim.cpp:407-410 | any two names are ordered one way or the other by strcmp |
| NameSort.LexLeTrans | anim.cpp:407-410 | the strcmp order is transitive |
| NameSort.LexLeRefl | anim.cpp:407-410 | every name comes no later than itself |
| NameSort.LexLeAntisym | anim.cpp:407-410 | two names each no later than the other are equal, so the order is total on distinct names |
| NameSort.Insert | anim.cpp:530 | inserting a name into a sorted list yields a sorted list holding exactly the old names and the new one |
| NameSort.HeadBelowRest | anim.cpp:530 | the head of a sorted list comes no later than any name of its tail with a name added, when that name does not come earlier either |
| NameSort.SortNames | media/si_zip.cpp:146 | the names in sorted order: sorted, and a rearrangement of exactly the given names |
| NameSort.SortedUnique | media/si_zip.cpp:138-146 | two sorted rearrangements of the same names are equal, so qsort with strcmp and std::sort give the same visiting order |
| Reader.LegacyGifOf | anim.c:61-67 | anim.c sees a GIF exactly when it was opened; the slurped file is passed on unchanged |
| Reader.TotalOf | media/reader.cpp:49-54 | the Uint32 total equals the exact sum of the delays whenever that fits in 32 bits |
| Reader.TotalOfSnoc | media/reader.cpp:51-54 | adding one delay adds it to the total modulo 2^32 |
| Reader.TotalDuration | media/reader.cpp:49-54 | the accumulation loop returns TotalOf of the delays |
| Reader.SiPngLoad | media/si_png.cpp:188-207 | nothing exactly when decoding fails; otherwise one frame, the decoded texture, shown for 0 ms, with the image's size and a zero total |
| Reader.AnimPngLoad | anim.cpp:378-403 | the same single frame in an anim_t, or nothing exactly when decoding fails |
| Reader.LegacyPngLoad | anim.c:152-305 | the same single frame in the older anim_t with playback not started, or nothing exactly when decoding fails |
| Reader.Rows | media/reader.cpp:75-79 | a width x height buffer read row by row has height rows of width pixels, row y starting at offset y * width |
| Reader.RowAt | media/reader.cpp:75-79 | row y holds the width pixels from offset y * width, which lie inside the buffer |
| Reader.ColorGrid | media/reader.cpp:73-79 | a width x height grid with every pixel the colour |
| Reader.FillSurface | media/reader.cpp:75-79 | the fill loop leaves a width x height grid of the colour |
| Reader.SiCreateColor | media/reader.cpp:65-86 | a fresh animation of the requested size, one frame of that size filled with the colour, shown for 0 ms |
| Reader.AnimCreateColor | anim.cpp:803-832 | the same single solid frame in an anim_t of the requested size |
| Reader.ColorFrameIsUniform | media/reader.cpp:73-81 | the colour frame's queried size is exactly the requested size and every pixel is the colour |
| Reader.Chosen | media/reader.cpp:33-45 | GIF is taken when it decodes, PNG only when GIF fails, zip only when both fail, libav only when all three fail |
| Reader.LegacyChosen | anim.c:501-518 | anim.c never uses a zip decoder and otherwise chooses as the C++ chain does without one |
| Reader.ChosenLoadsIffAnyDecoder | media/reader.cpp:33-45 | a file loads exactly when at least one decoder yields an animation, in both chains |
| Reader.SiDecode | media/reader.cpp:33-45 | an animation exactly when a decoder succeeds, and it is the chosen decoder's: the compositor's frames for a GIF, the one PNG frame, or the zip assembly |
| Reader.SiAnimLoad | media/reader.cpp:29-60 | an animation exactly when a decoder succeeds; libav's is used only when the others fail, its frames untouched; the total duration is set to the Uint32 sum of the delays |
| Reader.AnimDecode | anim.cpp:773-785 | the same chain into an anim_t: the compositor's frames and delays for a GIF, the PNG frame, or the zip loader's frames |
| Reader.SetAnimTotal | anim.cpp:787-795 | the total becomes the Uint32 sum of the first numFrame delays; nothing else changes |
| Reader.AnimLoad | anim.cpp:764-798 | nothing for a null file name; otherwise an animation exactly when a decoder succeeds, with its total set to the Uint32 sum of its frames' delays |
| Reader.LegacyAnimLoad | anim.c:501-518 | the first of GIF, PNG and libav that succeeds, returned as decoded: anim.c's compositor frames for a GIF, the PNG frame otherwise |
| ZipLoader.Names | media/si_zip.cpp:139-144 | the name list holds each member's name at its index |
| ZipLoader.Locate | media/si_zip.cpp:153-157 | zip_name_locate finds the first member carrying the name, and fails only when no member does |
| ZipLoader.Repeat | media/si_zip.cpp:133-136 | n copies of the default delay |
| ZipLoader.Timing | media/si_zip.cpp:38-51 | exactly count delays: the i-th number read, as a Uint32, or 0 where the file has no number left |
| ZipLoader.ReadTiming | media/si_zip.cpp:38-51 | the reading loop returns Timing of the numbers in the member |
| ZipLoader.FramePngs | media/si_zip.cpp:151-181 | there are never more frame members than names |
| ZipLoader.PngTextures | media/si_zip.cpp:178 | one texture per PNG result, each what the decoder yields |
| ZipLoader.SiZipAssembles | media/si_zip.cpp:151-181 | the loop pushes one texture per extracted non-timing member in sorted order (a failed PNG pushes a null texture), leaves the size of the last one (0 x 0 for a failed PNG), and either keeps the default delays or replaces them with exactly fileQty-1 timing values, keeping them when there is no timing member |
| ZipLoader.SiZipLoad | media/si_zip.cpp:101-187 | nothing exactly when the archive cannot be opened or has no member; otherwise fileQty-1 default delays, then every member in sorted name order as SiZipRun describes |
| ZipLoader.PushDefaultDelays | media/si_zip.cpp:133-136 | the animation holds exactly animQty delays of 40 ms and nothing else |
| ZipLoader.SiZipFill | media/si_zip.cpp:151-181 | the animation afterwards is SiZipRun of the names over what it held, its total duration untouched |
| ZipLoader.TimingInPlace | anim.cpp:414-425 | fscanf overwrites only the first count slots it finds a number for; every other slot keeps its value |
| ZipLoader.AnimZipRun | anim.cpp:533-565 | the loop never changes the number of delay slots |
| ZipLoader.AnimZipFrameBound | anim.cpp:555-564 | each name adds at most one frame, so there are never more frames than names |
| ZipLoader.AnimZipOverflowAsWritten | anim.cpp:513-516 | as written, an archive holding a single PNG gets file_count-1 = 0 texture slots and the PNG is stored at slot 0, past the end |
| ZipLoader.AnimZipSlotsInBounds | anim.cpp:555 | with one slot per member, every slot the loop stores a PNG into lies below the number of members |
| ZipLoader.ReadTimingInto | anim.cpp:414-425 | the delay array afterwards is TimingInPlace of what it held |
| ZipLoader.AnimZipLoad | anim.cpp:479-576 | nothing exactly when the archive cannot be opened or has no member; otherwise, with file_count slots, the counted frames, size and delays are those of the loop over the sorted names, and num_frame stays within the arrays |
| ZipLoader.AnimZipFill | anim.cpp:533-565 | the anim_t afterwards holds AnimZipRun of the names from the start record |
| ZipLoader.SortedNamesCount | anim.cpp:524-530 | sorting keeps as many names as members |
| ZipLoader.FillDelays | anim.cpp:518-521 | every delay slot holds the default delay |
| ZipLoader.AnimZipStep | anim.cpp:535-564 | one name keeps the anim_t in step with AnimZipMember: timing read in place, a decoded PNG counted as the next frame with its size, a failed one not counted |
| Items.AddAndSet | sdl_item.cpp:195-211 | the array ends with max(old length, index + 1) entries: slot index holds the animation, other old slots are kept, new slots hold null |
| Items.AddAndSetAnim | sdl_item.cpp:195-211 | the realloc and the clearing loop return AddAndSet of the array |
| Items.Need | sdl_item.cpp:217-251 | the size needed covers the animation and, when the item shows a string, the string; each dimension is 0 or one of those |
| Items.Grow | sdl_item.cpp:253-260 | the rectangle keeps its position, never shrinks, and each dimension is the old one or the needed one |
| Items.Item.constructor | sdl_item.cpp:125-183 | item_init: off-screen at (-1, -1) with no size, empty animation arrays, top-left layout, looping, not clicked, no callback, no string or buffer, unlinked |
| Items.Item.SetAnim | sdl_item.cpp:215-261 | a non-null animation is stored at its index of the default array (a null one changes no array), and the rectangle grows to Need of the animation and the shown string |
| Items.Item.SetPos | sdl_item.cpp:187-191 | the item moves; its size stays |
| Items.Item.SetGeometry | sdl_item.cpp:507-513 | the rectangle becomes exactly the one given |
| Items.Item.SetAnimArray | sdl_item.cpp:275-284 | the array's animations fill slots 0, 1, ... of the default array and the rectangle is grown by each in turn |
| Items.Item.SetAnimOver | sdl_item.cpp:346-349 | the animation goes to its slot of the hover default array |
| Items.Item.SetAnimOverArray | sdl_item.cpp:353-367 | a null array changes nothing; otherwise its animations fill slots 0, 1, ... of the hover default array |
| Items.Item.SetAnimClick | sdl_item.cpp:371-374 | the animation goes to its slot of the click default array |
| Items.Item.SetAnimClickArray | sdl_item.cpp:378-392 | a null array changes nothing; otherwise its animations fill slots 0, 1, ... of the click default array |
| Items.Item.SetString | sdl_item.cpp:459-468 | the item shows the string and its rendered text is dropped |
| Items.Item.SetBuffer | sdl_item.cpp:472-482 | the item shows and edits the caller's buffer of the given size, and its rendered text is dropped |
| Items.Item.SetFont | sdl_item.cpp:517-525 | the font changes and the text rendered with the old one is dropped |
| Items.SetAllFillsPrefix | sdl_item.cpp:275-284 | after k animations of an array are set, they fill slots 0..k-1 in order, the array has max(old length, k) entries, and later slots keep their contents |
| Items.GrowAllCovers | sdl_item.cpp:275-284 | setting an array only grows the rectangle, keeps its position, and makes it hold every animation set |
| Items.ItemList.constructor | sdl_item.cpp:28-50 | an empty list: a null head and no items |
| Items.ItemList.Add | sdl_item.cpp:28-50 | the list stays well linked with the new initialised item appended: linked after the old last item with the head's last moved to it, or, in an empty list, the head and its own last; apart from the old last item's `next` and the head's `last`, the earlier items are unchanged |
| ItemBlit.Selected | sdl.cpp:735-746 | the hover array is drawn when its first entry is set, else the click array, else the default array, and nothing exactly when none of the three has a first entry |
| ItemBlit.SizesOf | sdl.cpp:757-763 | one size per animation of the array, each that animation's width and height |
| ItemBlit.MaxWidth | sdl.cpp:750-765 | the box width is at least 0 and every animation's width, and is 0 or one of those widths |
| ItemBlit.MaxHeight | sdl.cpp:750-765 | the box height is at least 0 and every animation's height, and is 0 or one of those heights |
| ItemBlit.Placement | sdl.cpp:768-786 | every animation is drawn at its own size; under TOP_LEFT at the item's corner; under CENTER inside the box of the largest, with the space left and right (above and below) equal or one more on the right (below) |
| ItemBlit.MaxSize | sdl.cpp:753-766 | the loop returns the widest width and the tallest height of the selected array |
| ItemBlit.DrawAll | sdl.cpp:768-789 | one draw call per animation in array order, each at its Placement rectangle with the item's loop flag, overlay and start tick |
| ItemBlit.BlitItem | sdl.cpp:728-798 | the draw calls are one per entry of the selected array in order, placed as Placement says, and the string is printed exactly when the item has a font and a string or buffer |
| SdlItems.CoveringIsMaximum | SdlItem.cpp:66-77 | after the loop over a vector the rectangle keeps its position, each dimension is no smaller than before nor than any animation's, and equals the old one or one animation's |
| SdlItems.Fit | SdlItem.cpp:94-115 | pushAnim's target size is at least the animation's and, when there is text, the text's; each dimension is one of those; with no text it is the animation's size |
| SdlItems.Truncated | SdlItem.cpp:449-452 | removeFromText yields a prefix of the text: for 0 <= q <= length the text minus its last q characters, for a negative or too large q (the size_t subtraction wraps) the whole text |
| SdlItems.AddThenRemove | SdlItem.cpp:443-452 | appending a string and then removing as many characters as it has gives the original text back |
| SdlItems.SdlItem.constructor | SdlItem.cpp:24-30 | rect (-1, -1, 0, 0), no animation in any list, TOP_LEFT, looping, not clicked, not overlay, no callback, empty text, no font and no text texture |
| SdlItems.SdlItem.SetPos | SdlItem.cpp:42-46 | the position becomes the one given and the size stays |
| SdlItems.SdlItem.SetShape | SdlItem.cpp:49-53 | the size becomes the one given and the position stays |
| SdlItems.SdlItem.SetAnimArray | SdlItem.cpp:62-78 | the vector replaces the animation list and the rectangle becomes the Covering of the old one by every animation (so it never shrinks, by CoveringIsMaximum) |
| SdlItems.SdlItem.SetAnim | SdlItem.cpp:81-89 | the list becomes exactly that animation and the size exactly its size, which may shrink the rectangle |
| SdlItems.SdlItem.PushAnim | SdlItem.cpp:92-125 | the animation is appended and the rectangle grows to hold its Fit (animation, and text when the text is not empty), never shrinking |
| SdlItems.SdlItem.ClearAnim | SdlItem.cpp:128-131 | the default list becomes empty and no other field changes |
| SdlItems.SdlItem.SetAnimClick | SdlItem.cpp:140-143 | the click list becomes the vector given and nothing else changes |
| SdlItems.SdlItem.ClearAnimClick | SdlItem.cpp:146-149 | the click list becomes empty and no other field changes |
| SdlItems.SdlItem.SetAnimOverArray | SdlItem.cpp:158-161 | the hover list becomes the vector given and nothing else changes |
| SdlItems.SdlItem.SetAnimOver | SdlItem.cpp:164-170 | the hover list becomes exactly that one animation and nothing else changes |
| SdlItems.SdlItem.ClearAnimOver | SdlItem.cpp:173-176 | the hover list becomes empty and no other field changes |
| SdlItems.SdlItem.SetRectX | SdlItem.cpp:227-230 | only the horizontal position changes |
| SdlItems.SdlItem.SetRectY | SdlItem.cpp:233-236 | only the vertical position changes |
| SdlItems.SdlItem.SetText | SdlItem.cpp:437-440 | the text becomes the string given |
| SdlItems.SdlItem.AddToText | SdlItem.cpp:443-446 | the text becomes the old text followed by the string |
| SdlItems.SdlItem.RemoveFromText | SdlItem.cpp:449-452 | the text becomes Truncated of the old text by the quantity |
| LegacyItems.FrameSize | item.c:170-191 | item_set_frame's size is at least the animation's (0 x 0 without one) and, when there is a string, the string's; each dimension is one of those |
| LegacyItems.LegacyItem.constructor | item.c:99-154 | rect (-1, -1, 0, 0), x = y = old_x = old_y = -1, timer 0, no animation, anim_end -1, all frame numbers 0, not clicked, no callback, no string, font or text texture, no links |
| LegacyItems.LegacyItem.SetPos | item.c:158-162 | the position becomes the one given and the size stays |
| LegacyItems.LegacyItem.SetFrame | item.c:166-192 | the item moves, takes the animation when one is given, and its size becomes exactly FrameSize, which can shrink it |
| LegacyItems.LegacyItem.SetFrameShape | item.c:196-201 | position and size become exactly the ones given |
| LegacyItems.LegacyItem.SetAnim | item.c:205-209 | as SetFrame, and frame_normal becomes -1 (play the animation) |
| LegacyItems.LegacyItem.SetSmoothAnim | item.c:213-222 | x, y, old_x, old_y and timer take the values given, then as SetAnim |
| LegacyItems.LegacyItem.SetString | item.c:375-383 | the item holds the string and its rendered texture is dropped |
| LegacyItems.LegacyItem.SetFont | item.c:418-425 | the item takes the font and its rendered texture is dropped |
| LegacyItems.LegacyItemList.constructor | item.c:27-46 | an empty list is a valid list with no head |
| LegacyItems.LegacyItemList.Add | item.c:27-46 | a fresh initialised item is appended to the chain: linked after the old head->last, or made the head and its own last when the list was empty; the list stays a well-linked chain of distinct items; apart from the old last item's `next` and the head's `last`, the earlier items are unchanged |
| Input.Views | sdl.cpp:252-369 | the dispatcher's view of the list has one entry per item, in list order, each that item's fields |
| Input.Opt | sdl.cpp:321-337 | a callback fires at most once, and exactly when it is set and its condition holds |
| Input.UpCalls | sdl.cpp:319-339 | a release fires at most one callback: the single-click one of the left (right) button for one click, the double-click one for two clicks, nothing for any other count or button |
| Input.Typed | sdl.cpp:903-911 | a printable key writes its own code, or with shift held a-z become A-Z; the character stays printable |
| Input.TypeKey | sdl.cpp:888-918 | DELETE and BACKSPACE step the index back (never below 0) and terminate there; a printable key writes its character, advances, and terminates after it, the index stopping at max-1; other keys change nothing; the index stays below the bound |
| Input.TypeKeys | sdl.cpp:888-918 | any sequence of keys keeps the buffer's size and the index below the bound |
| Input.TypeKeysWrites | sdl.cpp:901-917 | printable keys that fit land in order from the index on, followed by the terminator, and the text before the index is untouched |
| Input.TypeKeysInBounds | sdl.cpp:888-918 | after any keys the index is below the bound, the buffer keeps its size, and after a printable key or DELETE the cell at the index holds the terminator |
| Input.KeyCalls | sdl.cpp:854-886 | a key event fires at most one callback per registered key |
| Input.KeyCallsFromTable | sdl.cpp:854-886 | every callback a key event fires belongs to a registered key of that scancode, its key-up callback for a release and its key-down one for a press |
| Input.Input.constructor | sdl.cpp:27-48 | the pointer is in the window at (0, 0), the wheel stamp 0, no text target, no key or mouse callback |
| Input.Input.TextInit | sdl.cpp:816-827 | a null buffer changes nothing; otherwise typing starts at index 0 of that buffer with the size and callback given |
| Input.Input.TextReset | sdl.cpp:831-837 | no text target, index and bound 0 |
| Input.Input.TextGetBuf | sdl.cpp:841-844 | the current text buffer (null when none) |
| Input.Input.AddKeyCb | sdl.cpp:1028-1059 | the key goes at the end of the table, the earlier entries in their order |
| Input.Input.AddMouseCb | sdl.cpp:1089-1116 | the callback goes at the end of the table, the earlier entries in their order |
| Input.Input.VisitItem | sdl.cpp:256-287 | an item in the other pass or not under the pointer is left alone; otherwise an overlay hit sets skip and the event acts on the item as OnItem says |
| Input.Input.OnItemAt | sdl.cpp:288-356 | the event's effect on an item under the pointer: hover callback with the relative position, press, release, wheel, as OnItem and ClickedOn say |
| Input.Input.OnPress | sdl.cpp:304-318 | the text target is reset and moves to the item's buffer when it is editable; clicked is set when the item has a callback for the pressed side |
| Input.Input.OnRelease | sdl.cpp:319-339 | clicked is cleared and the log grows by exactly the UpCalls of the button and click count |
| Input.Input.OnWheel | sdl.cpp:340-354 | with a new timestamp the wheel-up (y > 0) or wheel-down (y < 0) callback fires and the timestamp is stored; with the stored one nothing happens |
| Input.Input.RunPass | sdl.cpp:252-362 | one pass over the linked list produces exactly the Walk over the items' views, and each item's clicked flag is ClickedIn |
| Input.Input.RunGlobal | sdl.cpp:377-426 | the global callbacks run in registration order, each fired when its MOUSE_* tag matches the event (a wheel only with a new timestamp) |
| Input.Input.MouseManager | sdl.cpp:197-429 | window events move the pointer in or out; outside the window or with no item nothing changes and the result is false; otherwise overlay items are visited first, the others only when no overlay item was hit, global callbacks run only when no item acted, and the result is whether one acted |
| Input.Input.Dispatch | sdl.cpp:248-428 | the state after both passes and the global fallback is Passes followed by GlobalCalls when nothing acted, and each item's clicked flag is ClickedAfter |
| Input.Input.PositionManager | sdl.cpp:132-193 | outside the window nothing changes; otherwise each item under the pointer shows its default hover animations, and its click ones while a button is down; every other item shows neither |
| Input.Input.ShowHover | sdl.cpp:152-189 | one item's hover and click lists as PositionManager states them |
| Input.Input.KeyboardManager | sdl.cpp:848-933 | a release fires the key-up callbacks of its code; a press fires the key-down ones when no text is typed, otherwise fires the text callback on RETURN, edits the buffer as TypeKey says and returns true; nothing else is handled; the buffer never leaves its bounds |
| Input.Input.FireKeys | sdl.cpp:854-886 | the walk down the key table logs exactly KeyCalls, in registration order |
| Input.Input.TypeInto | sdl.cpp:888-918 | the text callback fires on RETURN and the buffer and index become TypeKey of the old ones, staying within the bound |
| Input.ClickedAfterPasses | sdl.cpp:248-362 | an item's flag after both passes is the overlay pass's, then the other pass's unless an overlay item was hit |
| Input.SkipIgnoresCarried | sdl.cpp:286-292 | whether the non-overlay pass is skipped depends only on the items and the pointer |
| Input.WalkSkipIff | sdl.cpp:286-292 | the overlay pass sets skip exactly when some overlay item is under the pointer |
| Input.NonOverlayPassKeepsSkip | sdl.cpp:270-292 | the non-overlay pass never sets skip |
| Input.Shadowing | sdl.cpp:286-292 | when an overlay item is under the pointer only overlay items see the event and no other item's clicked flag changes; otherwise every item under the pointer sees it |
| Input.WalkStaleWheel | sdl.cpp:340-354 | with the stored timestamp a pass fires nothing, acts on nothing and keeps the stamp |
| Input.StaleWheelFiresNothing | sdl.cpp:340-426 | a repeated wheel timestamp fires no item and no global callback and the manager reports nothing done |
| Input.StaleGlobalWheel | sdl.cpp:407-420 | the global wheel callbacks do not fire for the stored timestamp |
| Input.WalkWheelOnce | sdl.cpp:340-354 | a pass on a wheel event fires nothing, or fires one callback and stores the new timestamp |
| Input.WheelFiresAtMostOnce | sdl.cpp:252-362 | however many items are under the pointer, one wheel event fires at most one item wheel callback |
| LegacyInput.ViewsOf | sdl.c:118-205 | the manager's view of the list has one entry per item, in list order, each that item's fields |
| LegacyInput.StrictWithinHalfOpen | sdl.c:140-143 | the strict test of sdl.c accepts only points the half-open test of sdl.cpp accepts, and never the item's own corner, which the half-open test accepts for a non-empty item |
| LegacyInput.LookAfter | sdl.c:139-203 | a clicked item ends showing its click frame; an item the pointer is not on keeps its flag and shows its normal frame; a release on the item clears the flag and shows the normal frame |
| LegacyInput.ReleaseCalls | sdl.c:173-187 | a release fires at most one callback, and none for a click count other than 1 or 2 or a button other than left and right |
| LegacyInput.LooksOf | sdl.c:139-203 | one look (frame and clicked flag) per item, in list order |
| LegacyInput.OverlayPassSkip | sdl.c:144-147 | the overlay pass sets the skip flag exactly when the pointer is on an overlay item |
| LegacyInput.SecondPassKeepsSkip | sdl.c:129-147 | the non-overlay pass never changes the skip flag |
| LegacyInput.Shadowing | sdl.c:144-147 | with the pointer on an overlay item the outcome is the overlay pass alone and no non-overlay item changes; otherwise both passes run |
| LegacyInput.KeyCallsOf | sdl.c:441-451 | at most one call per table entry, each the callback of an entry with the pressed scancode |
| LegacyInput.KeyCallsAppend | sdl.c:542-566 | registering one more key adds exactly its call, at the end, to what a key press fires |
| LegacyInput.ShiftNeverApplies | sdl.c:469-479 | no printable key is ever converted by the test as written: shift-a types 'a', where the corrected conversion types 'A' |
| LegacyInput.TypeInto | sdl.c:461-488 | DELETE and BACKSPACE drop the string's last character (an empty string stays empty), a printable key appends its character, any other key changes nothing; the character appended is the one of the corrected shift conversion `Input.Typed` (see the sdl.c:474-479 row under Findings), not the as-written one |
| LegacyInput.TypeAllAppends | sdl.c:469-488 | printable keys append their characters in order, with no bound on the length |
| LegacyInput.BackspaceUndoes | sdl.c:461-488 | BACKSPACE after a printable key gives the string back, and on an empty string keeps it empty |
| LegacyInput.LegacyInput.constructor | sdl.c:410-431 | no text target, no key callback |
| LegacyInput.LegacyInput.TextInit | sdl.c:410-419 | an item with no string changes nothing; otherwise typing goes to its string, at its end, with the callback given |
| LegacyInput.LegacyInput.TextReset | sdl.c:421-426 | no text target |
| LegacyInput.LegacyInput.TextGetBuf | sdl.c:428-431 | the string being typed into, or none |
| LegacyInput.LegacyInput.AddKeyCb | sdl.c:542-566 | the key goes at the end of the table, the earlier entries in their order |
| LegacyInput.LegacyInput.KeyboardManager | sdl.c:433-495 | only key presses count: with no text target the callbacks of the scancode fire; otherwise RETURN fires the text callback and the key is typed into the string as TypeInto says |
| LegacyInput.LegacyInput.FireKeys | sdl.c:441-451 | the walk down the key table logs exactly KeyCallsOf, in registration order |
| LegacyInput.LegacyInput.VisitItem | sdl.c:121-203 | one item of a pass moves the pass state one step along Walk and leaves the item with the look PassLooks gives it |
| LegacyInput.LegacyInput.OnItemAt | sdl.c:148-199 | on the item: motion shows the hover frame and runs its hover callback, a press moves the text target and shows the click frame, a release clears the flag and runs the click callbacks, a wheel runs the wheel callback |
| LegacyInput.LegacyInput.ReleaseLog | sdl.c:176-187 | the log grows by exactly ReleaseCalls |
| LegacyInput.LegacyInput.RunPass | sdl.c:119-205 | one pass over the linked list produces the Walk over the items' views, and the items take the looks PassLooks gives |
| LegacyInput.LegacyInput.MouseManager | sdl.c:97-209 | nothing for an empty list; otherwise the text target and log are those of Passes and each item ends with the look ItemAfter gives: changed only by its own pass, the non-overlay pass skipped when an overlay item was hit |
| LegacyInput.LegacyInput.TwoPasses | sdl.c:118-208 | the overlay pass then, unless an overlay item was hit, the second pass, as Passes and ItemAfter state |
| LegacyInput.LookThroughPasses | sdl.c:118-208 | an item's look after both passes is what its own pass makes of it |

## Left out

- **Rendering and window management.** SDL initialisation and cleanup, `sdl_screen_manager`, `sdl_blit_to_screen`, `sdl_blit_tex`, `sdl_print_item` glyph drawing, texture creation and destruction are not modelled. Drawing is I/O against SDL. `DrawAll` and `BlitItem` record the draw calls they would make instead.
- **`sdl_blit_item_list`** (sdl.cpp:802-812) and the legacy list blitter are not modelled. They only call the item blitter on each item in list order.
- **Zoom, angle and flip.** Hit-testing, hover selection and blitting use zoom 1, and `get_virtual`'s division by the zoom is not modelled. The camera offset (vx, vy) is passed in. Item angle, flip and zoom setters are left out for the same reason.
- **Floating point.** The camera's doubles are modelled as exact reals, so rounding of the interpolation is not captured. sdl.c's interpolation is modelled with the same formula.
- **Outside calls become parameters.**
  - Text measurement (`sdl_get_string_size`) is a `Size` argument.
  - `SDL_GetTicks` is a tick argument.
  - The shift keys (`SDL_GetKeyboardState`) are a boolean.
  - The mouse buttons of `SDL_GetMouseState` are a boolean.
- **Decoders.** libpng, giflib's `DGifSlurp` and libzip are modelled by their outcomes: `PngResult`, `GifSource` and `ZipSource`.
  - libav decoding is not part of this model. `anim_load` takes its outcome as an argument.
  - `extract_zip`, its temporary file and `read_timing`'s `fscanf` are folded into each member's data.
- **ItemBlit.BlitItem, ItemBlit.DrawAll, ItemBlit.MaxSize and ItemBlit.SizesOf** require every slot of the selected array to hold an animation. The item setters can leave a slot unset: `add_and_set_anim` (sdl_item.cpp:195-210) fills the slots it adds below the index with null, so `item_set_anim(i, a, 0)` then `item_set_anim(i, b, 2)` leaves slot 1 empty. sdl_blit_item (sdl.cpp:757-787) only checks slot 0 and then reads the width and height of every slot, so such an array crashes the source. What the source does then is not described by the model.
- **GifLoader.LegacyGifLoad** and `Gif.LegacyStart` start the carried transparency flag, transparent colour, disposal and delay at zero. anim.c (anim.c:41-45) leaves these locals uninitialised, so an image read before any Graphics Control Extension uses indeterminate values. The model fixes them at zero.
- **Items.AddAndSet, Items.Item.SetAnim, Items.Item.SetAnimOver and Items.Item.SetAnimClick** take the slot index as a natural number. The source takes an `int`; a negative index skips the growth branch and writes before the start of the array (sdl_item.cpp:195-210). That write is outside the model.
- **Input.Input.ShowHover** copies the default hover and click sequences into the shown ones. sdl.cpp:181-187 copies the array pointers, so both names share one buffer. A later in-place change or reallocation of the default array through the setters also changes, or leaves dangling, the shown one. The model does not capture that sharing.
- **PNG texture creation failure.** `PngResult.PngFailed` stands for the early exits of `libpng_load_texture` (media/si_png.cpp and anim.cpp:225-372), which return before the size outputs are written. When only `SDL_CreateTextureFromSurface` fails, the source still writes the decoded width and height (media/si_png.cpp:178-182, anim.cpp:366-370) next to a null texture. The model does not distinguish that case, so a ZIP frame whose texture creation fails gets size 0 (or keeps the previous size in the anim.cpp loader) where the source would take the decoded size.
- **Reader.LegacyGifOf** treats a failed `DGifSlurp` as "no GIF". anim.c does not check that result and goes on with whatever giflib left in the structure, which the model does not describe.
- **GifLoader.SiGifLoad, GifLoader.AnimGifLoad and GifLoader.LegacyGifLoad** require a slurped file whose images lie inside the logical screen, with rasters of the stated size and colour indices inside the palette. The source does not check this and would write or read outside its buffers otherwise.
- **Reader.SiCreateColor and Reader.AnimCreateColor** require a size whose pixel count fits a C `int`, as SDL's surface creation does. Surface creation failures are not modelled.
- **Input.Input.KeyboardManager and Input.Input.TypeInto** require a text buffer with at least one cell and the index below its bound. `sdl_keyboard_text_init` given a size of 0 is outside the model.
- **Legacy text buffer.** The legacy keyboard editor writes past the end of the item's string buffer with no bound. The model types into the item's string, which grows, so the overflow itself and the aliasing of the buffer are not captured.
- **Legacy pointer position.** sdl.c reads the pointer position from every event's motion fields. The model carries it in the event.
- **Anim.cpp** is line for line the same class as SiAnim.cpp under another name. Both are modelled by `Media.SiAnim`.
- **Trivial setters and getters.** These just store one argument or return one field, and are not modelled:
  - in sdl_item.cpp: `item_set_anim_shape` (sdl_item.cpp:265-270, which has the same effect as `item_set_geometry`, modelled by `Items.Item.SetGeometry`), `item_set_user`, `item_set_overlay`, `item_set_layout`, `item_set_anim_loop`, the callback setters, `item_set_string_bg`, `item_set_editable`, `item_set_edit_cb`, `item_set_anim_start_tick`;
  - in item.c: `item_set_tile`, `item_set_overlay`, the frame-number and range setters, `item_set_anim_over`, the callback setters, `item_set_string_bg`, `item_set_editable`, `item_set_edit_cb`, `item_set_geometry`;
  - in SdlItem.cpp: the getters, `setRect`, and the remaining setters of callbacks, user data, default animations, angle, zoom and flip;
  - in sdl.cpp: `sdl_get_virtual_*`.
- **Memory release.** `item_free`, `item_list_free`, `anim_free`, the callback-table frees and free functions are not modelled. Dafny's heap has no explicit release.
- **Callback tables and arguments.** The tables are sequences rather than linked lists, and a callback's argument pointer is folded into its identity.

## Findings

| source | as written | input that shows it | evidently intended | confidence | as-written member | corrected member |
|---|---|---|---|---|---|---|
| sdl.c:535-540 | `sdl_force_virtual_y` writes the forced value into `old_vx`, the horizontal start of the transition | a camera at 0 on both axes whose last change was at tick 1000; forcing y = 40 makes the frame at tick 1075 show x = 20 instead of 0 | the vertical start `old_vy` is set, as sdl.cpp:1010-1015 does | not executed | LegacyCamera.ForceYAsWrittenMovesX | LegacyCamera.ForceYKeepsX |
| anim.cpp:513-516 | `libzip_load` allocates `file_count-1` texture slots but stores one texture per PNG member | an archive with the single member "a.png", a 16x16 PNG, and no timing member: the PNG is stored at slot 0 of a 0-slot array | one texture slot per member | not executed | ZipLoader.AnimZipOverflowAsWritten | ZipLoader.AnimZipSlotsInBounds |
| sdl.c:474-479 | the uppercase test compares the key code with `SDL_SCANCODE_A`..`SDL_SCANCODE_Z` (4 to 29), which no printable key code reaches | shift held while typing 'a' (97) types 'a' | key codes 'a'..'z' become 'A'..'Z', as sdl.cpp:903-911 does | not executed | LegacyInput.ShiftNeverApplies | Input.Typed |
