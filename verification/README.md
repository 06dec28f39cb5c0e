# Homeboard: proofs about its algorithms and protocols

Homeboard is a photo frame and home display built from small C services. This project models the parts of
those services that compute or coordinate something, and proves what they are meant to guarantee, with Dafny.
`dafny verify dfyconfig.toml` checks all of it.

One module stands for one source file, except where a file holds more than one thing:

| module | what it models | of |
|---|---|---|
| `PhotoRoll` | the cache as an unbounded roll of photos with a cursor; its operations and who closes which descriptor | `photo-provider/cache.c` |
| `PhotoCache` | the ring of the cache, an array updated in place, proved to do to the ring what `PhotoRoll` does to the roll | `photo-provider/cache.c` |
| `PhotoHistory` | when "previous" brings back the photo that "next" left, and when it is lost | `photo-provider/cache.c` |
| `PhotoProvider` | the cache worker and the D-Bus thread interleaved: settings, the `needs_register` flag, the server, waits and wake-ups | `photo-provider/cache.c`, `wwwslide_backend.c`, `dbus.c` |
| `PhotoDelivery` | what those two threads deliver: metadata, order, and the answer to every call | `photo-provider/cache.c`, `wwwslide_backend.c`, `dbus.c` |
| `RenderLoop` | the render thread and the D-Bus thread of the slideshow: semaphore, skip counter, mutex, pause | `ambience/render.c` |
| `CommandQueue` | the lock-free queue, with slot copies cut into single cells and wrapping indices | `occupancy-sensor-ld2410s/ld2410s_uart/transport.c` |
| `ByteReader` | the reader's buffer, one byte at a time, for any parser | `occupancy-sensor-ld2410s/ld2410s_uart/transport.c` |
| `FrameStream` | the frame encoder, the parser, and the two together | `occupancy-sensor-ld2410s/ld2410s_uart/transport.c` |
| `ImgRender` | scale to fit, rotate, align, nearest and bilinear sampling | `lib/jpeg_render/img_render.c` |
| `Overlay` | cached layers, expiry, rotated alpha blit | `ambience/overlay.c` |
| `EinkPack` | the packing loop of the e-ink panel | `lib/eink/eink.c` |
| `WordWrap` | the greedy word wrap | `lib/eink/cairo_helpers.c` |
| `PresencePolicy` | hysteresis, silent hours, the force-off latch | `presence-service/presence.c` |
| `JsonEscape` | the bounded JSON string printer | `dbus-mqtt-bridge/host_info.c` |

`Wrappers` and `Modular` hold an option type, a byte and a few facts about division.

How the models read the source:

* **Threads** are transition systems. A step is one atomic load, store or exchange, one semaphore operation, one
  answer of the server, or one critical section under a mutex. Steps of the two threads alternate in any order,
  and a theorem about a `Run` holds for every interleaving. A timed wait may time out at any moment.
* **Code that updates state in place** is a class or a method over arrays. Its contract ties the new state to a
  function of the old one, and the theorems are about that function.
* **What a run was asked for** is told by its list of steps alone (`Asked`, `Sent`, `Pressed`, `AskedActive`, `AskedFb`,
  `Enqueued`, `LastSvg`, `LastText`): these functions read the calls, never the state the steps leave.
* **Clocks, randomness, the server, cairo and nanosvg** are parameters: the minute a report arrives in, the time of
  a render, the server's answers, whether a stretch of text fits, what a source looks like on a canvas.

What the code does that its documentation does not say, or says otherwise; the models follow the code:

* `presence.c` makes its first value known with the `delay`-th report after the sensor came up; the header says that
  `delay` reports are hidden first (`FirstCommit`).
* `cairo_render_text` prints nothing of the rest of a text that ends in whitespace and still fits one line:
  `"a "` prints nothing. Where leaving out characters at its front never makes a stretch too wide, the end is lost
  exactly when the last word fits a line of its own. One thing can save it: a doubled separator before it, if a
  line begins at the second of the two and does not fit (`LosesItsEndExactly`, `LosesLastWordThatFits`,
  `DoubledSeparatorSaves`).
* "Next" and then "previous" need not show the same photo again. They do, whatever the worker does in between,
  exactly when some history is kept and no fetch in progress is about to overfill a ring that is full from the
  photo on screen on (`NextThenPrev`); and such a moment is reached whatever the depths (`OneTooManyHappens`).
* A pause leaves the fallback image on screen only if that image decodes (`PauseIsFinal`, `FallbackMustDecode`).
* `json_escape` never uses the last byte before the terminator, so a text whose escape needs it is cut
  (`CompleteExactly`). A cut text in UTF-8 stays well-formed exactly when the first byte left out does not belong
  to a character begun before it (`OutputIsUtf8Exactly`). Hostname and model are never cut, and an address in
  ASCII never breaks (`NamesStayUtf8`, `AddressStaysUtf8`).
* A command whose bytes happen to contain the end of a frame, or a second header, does not come back as itself
  (`RoundTrip`, `SomeDoNotReturn`).
* A response that runs into the full buffer is lost, however good it is (`Resync`, `LostByOverflow`).

## Model

| member | source | states |
|---|---|---|
| PhotoRoll.PlaceConserves | photo-provider/cache.c:141-173 | a fetched photo adds its descriptor, and no other, to what is closed or held, whether it is kept, dropped, discarded, or evicts another |
| PhotoRoll.FlushConserves | photo-provider/cache.c:64-78 | flushing closes exactly the held descriptors, once each |
| PhotoRoll.StarvedMeansFetch | photo-provider/cache.c:110-122 | whenever a consumer has to wait, the worker has a reason to fetch and a place to put the photo |
| PhotoRoll.RetreatKeepsIdle | photo-provider/cache.c:268-275 | stepping back needs no broadcast: it never gives an idle worker work |
| PhotoRoll.RollStaysValid | photo-provider/cache.c:155-173 | every operation keeps the cursor on a held photo: the photo on screen is never evicted |
| PhotoRoll.OfferShifts | photo-provider/cache.c:155-173 | what a push closes and what it leaves are, in order, what was held and the new photo |
| PhotoCache.SlotsDiffer | photo-provider/cache.c:60-62 | positions less than one capacity apart never share a slot |
| PhotoCache.Cache.constructor | photo-provider/cache.c:181-205 | an empty ring of history + 1 + prefetch places, prefetch at least one |
| PhotoCache.Cache.EntryClose | photo-provider/cache.c:52-58 | closes the slot's descriptor if it holds one, and touches no other slot |
| PhotoCache.Cache.FlushLocked | photo-provider/cache.c:64-70 | closes every held photo once, in order, and leaves an empty roll and an empty ring |
| PhotoCache.Cache.Invalidate | photo-provider/cache.c:72-78 | a flush and a new generation |
| PhotoCache.Cache.ShouldFetchLocked | photo-provider/cache.c:110-122 | true exactly when the roll is short of prefetched photos and has room |
| PhotoCache.Cache.MakeRoom | photo-provider/cache.c:153-158 | evicts at most the oldest photo, and only if it is not the one on screen |
| PhotoCache.Cache.Place | photo-provider/cache.c:148-173 | the ring with the fetched photo refines the roll with it: discarded on a moved generation, dropped without room, else appended to a free slot |
| PhotoCache.Cache.PopLocked | photo-provider/cache.c:245-256 | delivers the next photo of the roll, or none exactly when starved |
| PhotoCache.Cache.PopPrev | photo-provider/cache.c:268-279 | delivers the previous photo if it is still held |
| PhotoProvider.NeverStale | photo-provider/wwwslide_backend.c:251-278 | in every interleaving each photo served was fetched for the settings last asked for before the call that serves it, and whenever no setter is between storing and invalidating every photo held was too |
| PhotoProvider.SettingsAreAsAsked | photo-provider/wwwslide_backend.c:251-278 | between setters the settings in force are those of the last accepted calls: width, height and QR each the one asked for, a size outside 128 to 3840 ignored |
| PhotoProvider.ChangeNeverLost | photo-provider/wwwslide_backend.c:338-352 | a failed or raced registration never loses a settings change: the flag is up or the server knows the settings |
| PhotoProvider.FreshStep | photo-provider/wwwslide_backend.c:163-190 | every atomic step of registering, fetching and setting keeps the freshness invariant |
| PhotoProvider.FreshSetters | photo-provider/dbus.c:84-114 | storing, flagging and then invalidating, in that order, keeps the freshness invariant |
| PhotoProvider.NoMutualSleep | photo-provider/cache.c:124-179 | worker and consumer are never both asleep without a wake-up on the way, and a sleeping worker has nothing to do |
| PhotoProvider.WaitingConsumerIsFed | photo-provider/cache.c:233-256 | from every reachable state with a waiting consumer, 23 steps of the worker with an answering server bring a photo, fetched for the settings in force, and wake the consumer |
| PhotoProvider.EveryDescriptorOnce | photo-provider/cache.c:124-179 | each descriptor the backend returned is in one place: closed, in the ring or in the worker's hand; after shutdown all are closed once |
| PhotoProvider.SafeAlways | photo-provider/cache.c:124-179 | waits, freshness and conservation hold together in every reachable state |
| PhotoProvider.PrevThenNext | photo-provider/cache.c:268-279 | a step back, any work of the worker, and a step forward deliver the same photo without waiting |
| PhotoProvider.FeedingRunExists | photo-provider/cache.c:124-179 | from such a state there is such a run of any length, in which the worker takes no wake-up that nobody sent |
| PhotoProvider.WorkerCanMove | photo-provider/cache.c:124-179 | short of its exit the worker always has a step to take |
| PhotoProvider.PrevFindsWhatIsHeld | photo-provider/cache.c:268-279 | a step back after a step forward delivers the photo left behind, or nothing, as it is still held or not |
| PhotoDelivery.PhotosAreAsSent | photo-provider/cache.c:124-179 | in every run a photo is held and served with the metadata the server sent with it, and photos are held in the order they were sent |
| PhotoDelivery.ServedInOrder | photo-provider/cache.c:245-256 | over any steps without a setter, a step back or a shutdown, consumers get the photos of the roll one after the other, none skipped and none twice |
| PhotoDelivery.PhotoCallEnds | photo-provider/cache.c:244-266 | a call ends with the next photo if there is one and waits if not; a time-out ends it with none |
| PhotoDelivery.StaleRegisters | photo-provider/wwwslide_backend.c:342-352 | a client that was quiet too long registers before it fetches, whatever the dispatch thread does meanwhile |
| PhotoDelivery.OneRegistrationAFlag | photo-provider/wwwslide_backend.c:345-356 | the worker registers exactly when it took the flag, and after any failure starts over with the cache untouched |
| PhotoDelivery.OnlyChangesInvalidate | photo-provider/wwwslide_backend.c:251-278 | a size out of range changes nothing; a setter goes on to flag and invalidate exactly when a value differs from the one stored |
| PhotoDelivery.StoredGoesOn | photo-provider/dbus.c:84-114 | a change raises the flag and then empties the roll under a new generation; no change ends the call there |
| PhotoDelivery.SleepsExactlyWhenIdle | photo-provider/cache.c:128-134 | at the lock the worker exits on shutdown, fetches when it should, and sleeps otherwise |
| PhotoHistory.NextThenPrev | photo-provider/cache.c:153-168 | told before the step forward: every run of the worker lets a step back deliver the same photo if and only if history is kept and no fetch in progress is about to overfill a ring full from that photo on |
| PhotoHistory.LosingRun | photo-provider/cache.c:153-158 | otherwise some run of the worker loses the photo |
| PhotoHistory.OneTooManyHappens | photo-provider/cache.c:110-122 | whatever the depths, the overfull moment is reached from the start |
| PhotoHistory.SparedStep | photo-provider/cache.c:114-173 | every step of the worker keeps a place for the photo left behind |
| RenderLoop.NoPressLost | ambience/render.c:369-383 | in every run what the fetches collected and what the counter holds add up to one for each "next" minus one for each "previous" |
| RenderLoop.NoLostWakeup | ambience/render.c:117-168 | blocked with no post pending or on its way, the render thread waits for its turn only when ready with no press left, and waits to become ready only when it is not |
| RenderLoop.StepsTheNetWay | ambience/render.c:176-182 | a fetch collects the presses made since the fetch before, and goes back exactly when there were more of "previous" among them than of "next" |
| RenderLoop.PressIsServed | ambience/render.c:117-181 | a press made while the slideshow is ready is collected, and the counter emptied, within 13 steps of the render thread and one for each post |
| RenderLoop.PressFindsThreadFree | ambience/render.c:117-168 | until then the render thread always has a step to take: it sleeps in no wait without a post |
| RenderLoop.WaitsForItsTurn | ambience/render.c:148-167 | a ready slideshow that no one posts to fetches nothing before its time is up: interrupted waits begin again |
| RenderLoop.DrainsBeforeTaking | ambience/render.c:176-181 | without calls in between the semaphore is empty when the counter is taken, so presses collapse into one picture |
| RenderLoop.CallsTakeEffect | ambience/render.c:308-400 | in every run the slideshow is active, running and on a framebuffer as the last such calls made it |
| RenderLoop.FetchedPictureIsPainted | ambience/render.c:207-239 | a fetched picture is on the framebuffer four steps later if there is one and the slideshow is active, and otherwise changes nothing |
| RenderLoop.OnlyFetchedPicturesArePainted | ambience/render.c:213-239 | without a picture fetched the render thread paints nothing |
| RenderLoop.NothingShownWithoutFramebuffer | ambience/render.c:87-92 | in every run nothing is shown while no framebuffer is attached |
| RenderLoop.AwakeThread | ambience/render.c:170-181 | every step of the render thread keeps this, draining the semaphore before reading the counter included |
| RenderLoop.GuardedThread | ambience/render.c:225-239 | the mutex is held by one thread, and the check of the active flag under it protects a painted pause |
| RenderLoop.GuardedCaller | ambience/render.c:308-325 | the same for every step of the D-Bus thread, framebuffer changes included |
| RenderLoop.PauseIsFinal | ambience/render.c:385-401 | once a pause returned, the fallback stays on the framebuffer until the next activation or framebuffer change, whatever fetch was in flight |
| RenderLoop.PausedFramebufferIsFilled | ambience/render.c:308-325 | a framebuffer attached to a paused slideshow shows the fallback once the call returned, and keeps it as long |
| RenderLoop.FallbackMustDecode | ambience/render.c:70-82 | without a decodable fallback no pause ever shows it |
| CommandQueue.Fifo | occupancy-sensor-ld2410s/ld2410s_uart/transport.c:97-115 | in every interleaving of loads, cell copies and stores, and over any number of wraps, the commands put in are those the completed attempts began with, and what is taken out is a prefix of them, at most eight behind |
| CommandQueue.NoTornRead | occupancy-sensor-ld2410s/ld2410s_uart/transport.c:102-113 | no slot is read while it is written |
| CommandQueue.ExactAnswers | occupancy-sensor-ld2410s/ld2410s_uart/transport.c:98-111 | refused exactly when eight commands wait, empty exactly when none does, as judged by the wrapped indices |
| CommandQueue.OnlyMultiplesOfEight | occupancy-sensor-ld2410s/ld2410s_uart/transport.c:102-112 | wrapping keeps every index on its slot if and only if eight divides the number of machine words |
| CommandQueue.ValidStep | occupancy-sensor-ld2410s/ld2410s_uart/transport.c:97-115 | every single access keeps the queue invariant |
| FrameStream.StreamSafe | occupancy-sensor-ld2410s/ld2410s_uart/transport.c:242-283 | for every byte stream the frames given to callbacks are slices of it from header to footer, disjoint and in order (ReportFound, Resync and CalibrationFound say which are given) |
| FrameStream.RoundTrip | occupancy-sensor-ld2410s/ld2410s_uart/transport.c:153-233 | the bytes of a sent command come back as one response with its word, little-endian status and data, if and only if it has a status, ends no frame early and repeats no header |
| FrameStream.Resync | occupancy-sensor-ld2410s/ld2410s_uart/transport.c:242-344 | whatever bytes came before, a response is found if and only if the buffer as they left it has room for it, no frame ends on the way and no second header hides the first |
| FrameStream.ReportFound | occupancy-sensor-ld2410s/ld2410s_uart/transport.c:246-252 | whatever bytes came before, a report 6E .. 62 is handed on whole, at its place, if and only if the buffer as they left it has room for it and no frame ends on the way |
| FrameStream.CalibrationFound | occupancy-sensor-ld2410s/ld2410s_uart/transport.c:269-280 | the same for calibration frames F4 F3 F2 F1 .. F8 F7 F6 F5 that repeat no header |
| FrameStream.FramesEndExactly | occupancy-sensor-ld2410s/ld2410s_uart/transport.c:242-283 | a frame ends exactly with the report marks five bytes apart or one of the two footers, and is of that kind |
| FrameStream.LostByOverflow | occupancy-sensor-ld2410s/ld2410s_uart/transport.c:340-344 | after any number of bytes that end no frame, a response is lost exactly when it runs into the full 256 bytes |
| FrameStream.ReportLostByOverflow | occupancy-sensor-ld2410s/ld2410s_uart/transport.c:340-344 | after bytes that end no frame, a report is lost exactly when it runs into the full 256 bytes |
| FrameStream.ResyncAlone | occupancy-sensor-ld2410s/ld2410s_uart/transport.c:254-267 | after junk that fits the buffer with it and ends no frame, the response is the only callback |
| FrameStream.SomeDoNotReturn | occupancy-sensor-ld2410s/ld2410s_uart/transport.c:242-283 | a command that carries the footer or the header in its data does not come back |
| ByteReader.FoundExactly | occupancy-sensor-ld2410s/ld2410s_uart/transport.c:316-344 | for any parser that frames: the bytes of f reach a callback whole if and only if they gather in the buffer and the parser finds them |
| ByteReader.SafeFrom | occupancy-sensor-ld2410s/ld2410s_uart/transport.c:316-344 | for any such parser, frames are slices of the stream, in order, without overlap |
| ByteReader.Interrupted | occupancy-sensor-ld2410s/ld2410s_uart/transport.c:335-344 | a buffer cleared in the middle of a frame never delivers it |
| FrameStream.ParseIsFramed | occupancy-sensor-ld2410s/ld2410s_uart/transport.c:242-283 | a frame found in the buffer starts with its header and ends with the newest byte |
| FrameStream.FindLast | occupancy-sensor-ld2410s/ld2410s_uart/transport.c:72-83 | the last place where the pattern lies within the first n bytes |
| FrameStream.MemRFind4 | occupancy-sensor-ld2410s/ld2410s_uart/transport.c:72-83 | the backward loop finds the last match, or there is none |
| FrameStream.SendCmd | occupancy-sensor-ld2410s/ld2410s_uart/transport.c:153-185 | writes header, little-endian length and word, data and footer, or refuses a payload over 128 bytes |
| FrameStream.EncodeLayout | occupancy-sensor-ld2410s/ld2410s_uart/transport.c:153-185 | FD FC FB FA, the length of word and data, the word, both little-endian, the data, 04 03 02 01; refused past 126 bytes of data |
| FrameStream.Receiver.constructor | occupancy-sensor-ld2410s/ld2410s_uart/transport.c:287-290 | an empty 256-byte buffer |
| FrameStream.Receiver.OnByte | occupancy-sensor-ld2410s/ld2410s_uart/transport.c:316-344 | one byte moves the buffer and the callbacks exactly as the stream model does; the buffer never overflows |
| FrameStream.Receiver.ParseBuffer | occupancy-sensor-ld2410s/ld2410s_uart/transport.c:242-283 | decides as the parser of the stream model, which FramesEndExactly and the three laws on found frames pin down |
| ImgRender.RotationMeansTurning | lib/jpeg_render/img_render.c:90-153 | rendering with a rotation is rendering the turned image without one, pixel by pixel, for both interpolations, every alignment and every size |
| ImgRender.TurnShows | lib/jpeg_render/img_render.c:6-31 | one quarter turn more is one rotation more, and four are none |
| ImgRender.SameSizeCopies | lib/jpeg_render/img_render.c:90-153 | an image of the framebuffer's size is copied pixel by pixel, with either interpolation |
| ImgRender.Place | lib/jpeg_render/img_render.c:98-132 | the scaled image lies inside the framebuffer, reaches edge to edge in one direction, lies across as the horizontal alignment says and down as the vertical one says, and samples inside the source |
| ImgRender.ScaleIs | lib/jpeg_render/img_render.c:100-106 | the direction that is short of space decides the scale |
| ImgRender.PlaceKeepsAspect | lib/jpeg_render/img_render.c:100-106 | both extents in whole numbers: the one direction is filled, the other is the largest that keeps the aspect ratio |
| ImgRender.SampleInside | lib/jpeg_render/img_render.c:140-148 | every pixel of the scaled image samples inside the source |
| ImgRender.NearestTakesTheCell | lib/jpeg_render/img_render.c:33-49 | nearest takes the source pixel whose scaled cell holds the destination pixel; the clamp never acts |
| ImgRender.CellInWholes | lib/jpeg_render/img_render.c:142-150 | that is pixel k * src / fb of the source, rounded down |
| ImgRender.SamplesStayWithin | lib/jpeg_render/img_render.c:55-88 | no sample leaves the range of the image's own colours |
| ImgRender.Lerp | lib/jpeg_render/img_render.c:51-53 | a byte at the t-th part of the way between its ends, truncated; at zero the first |
| ImgRender.BlendAlongOneAxis | lib/jpeg_render/img_render.c:79-87 | where rows do not differ only the horizontal distance counts, and the other way round |
| ImgRender.BilinearAcross | lib/jpeg_render/img_render.c:55-88 | where rows do not differ, every channel lies as far between the left pixel and the right one as the position does |
| ImgRender.BilinearDown | lib/jpeg_render/img_render.c:55-88 | where columns do not differ, as far between the upper pixel and the lower one |
| ImgRender.DrawnExactly | lib/jpeg_render/img_render.c:136-152 | a framebuffer pixel is the sample at its place as 0x00RRGGBB from the first column and row of the placed image to the last, and zero everywhere else |
| ImgRender.Offset | lib/jpeg_render/img_render.c:108-132 | left or top aligned leaves no space first, right or bottom all of it, centred half of it up to a pixel |
| ImgRender.AddressInBuffer | lib/jpeg_render/img_render.c:45-48 | the bytes read for a pixel lie in the pixel buffer, and no two pixels share them |
| ImgRender.Render | lib/jpeg_render/img_render.c:134-153 | the loops leave each pixel as DrawnExactly tells it, and touch nothing between width and stride |
| ImgRender.RenderRow | lib/jpeg_render/img_render.c:140-152 | one row of the scaled image, and nothing else |
| Overlay.CanvasBijection | ambience/overlay.c:341-371 | the map of the blit takes every framebuffer pixel to its own canvas pixel: the bounds check never fires |
| Overlay.CanvasCovered | ambience/overlay.c:341-371 | and it reaches every canvas pixel |
| Overlay.OverlayLinesUp | ambience/overlay.c:337-369 | a photo of the canvas's size is rendered exactly where the overlay's pixels go, for every rotation |
| Overlay.Mixed | ambience/overlay.c:380-391 | a blended channel is the average of overlay and frame weighted by alpha and its complement, rounded down, and lies between them |
| Overlay.OverLiesBetween | ambience/overlay.c:372-391 | every channel is that average, red of red, green of green, blue of blue; a clear pixel changes nothing, an opaque one hides the frame |
| Overlay.Divided | ambience/overlay.c:316-322 | undoing the multiplication by alpha needs no clamp |
| Overlay.LayersFollowSettings | ambience/overlay.c:77-98 | after any run of calls each layer shows what the last call that set it makes due, until its timeout and not after; only the renders read the clock in order |
| Overlay.ExpiredFollows | ambience/overlay.c:421-428 | expiring drops a layer exactly when its time is up |
| Overlay.Layer.Swap | ambience/overlay.c:73-94 | a new source, its deadline, and no cache |
| Overlay.Layer.Expire | ambience/overlay.c:421-428 | drops the layer at its deadline |
| Overlay.Layer.Fill | ambience/overlay.c:218-335 | the cache becomes a drawing of the source at the canvas's size |
| Overlay.Layer.Blit | ambience/overlay.c:341-394 | blends the drawing over every pixel of the framebuffer, once |
| Overlay.Layer.Draw | ambience/overlay.c:396-419 | cached or not, what is blended is a fresh drawing of the source |
| Overlay.Overlay.constructor | ambience/overlay.c:100-112 | two empty layers |
| Overlay.Overlay.SetSvg | ambience/overlay.c:131-190 | an SVG that does not parse changes nothing, an absent one clears the layer |
| Overlay.Overlay.SetText | ambience/overlay.c:192-213 | an empty text clears the layer |
| Overlay.Overlay.Render | ambience/overlay.c:430-453 | whatever calls came before, a set made between its clock reading and its mutex included, every pixel gets the SVG that is due and over it the text that is due, freshly drawn |
| Overlay.TextCoversSvg | ambience/overlay.c:440-444 | the text is on top: opaque it is all there is, clear or absent it leaves what the SVG made of the pixel |
| EinkPack.Pack | lib/eink/eink.c:346-374 | every bit of the buffer is the specified image of one surface pixel, or a zero padding bit |
| EinkPack.PixelPacked | lib/eink/eink.c:354-374 | one pass of the loop sets one pixel's bit and disturbs no other |
| EinkPack.InkIsZero | lib/eink/eink.c:354-372 | surface pixel (x, y), counted from the far corner when flipped, is bit height - 1 - y of column x, set exactly when clear on the surface, or when set if colours are inverted |
| EinkPack.PaddingIsZero | lib/eink/eink.c:351-366 | the bits beyond the surface are zero |
| EinkPack.PixelIsBit | lib/eink/eink.c:358-367 | a surface pixel is its bit of its byte, lowest first |
| EinkPack.MaskIsShift | lib/eink/eink.c:365-372 | a panel byte holds its highest bit first |
| EinkPack.WriteChangesOneByte | lib/eink/eink.c:361-372 | addresses are in bounds, and no two columns share a byte |
| EinkPack.FlipIsReflection | lib/eink/eink.c:353-357 | the 180-degree mode sends byte for byte what the plain mode sends for the surface reflected in its centre |
| EinkPack.PackingLosesNothing | lib/eink/eink.c:354-374 | surfaces that pack alike have the same pixels |
| WordWrap.RenderText | lib/eink/cairo_helpers.c:49-97 | terminates despite going back, and prints a wrap of the text |
| WordWrap.WrapUnique | lib/eink/cairo_helpers.c:49-97 | that description leaves one possible result |
| WordWrap.NothingLost | lib/eink/cairo_helpers.c:49-97 | for any measure: lines and the separators they were broken at rebuild the text, unless it ends in whitespace and what follows the last line fits |
| WordWrap.LosesItsEndExactly | lib/eink/cairo_helpers.c:58-96 | told by the text: one that ends in whitespace loses its end if and only if its last word fits a line, unless a line begins at the second of two separators before it and does not fit |
| WordWrap.LosesLastWordThatFits | lib/eink/cairo_helpers.c:58-96 | after a single separator it does if and only if the last word fits |
| WordWrap.DoubledSeparatorSaves | lib/eink/cairo_helpers.c:73-93 | where two characters are too wide, "a b " loses its b and "a  b " does not |
| WordWrap.TrailingSpaceLosesText | lib/eink/cairo_helpers.c:63-72 | "a " prints nothing |
| WordWrap.LinesFitOrAreOneWord | lib/eink/cairo_helpers.c:73-86 | a line fits or has no whitespace after its first character |
| WordWrap.LinesAreGreedy | lib/eink/cairo_helpers.c:63-82 | a fitting line that is not the last could not have taken one word more |
| WordWrap.SixCharactersAreSpace | lib/eink/cairo_helpers.c:58-62 | a line breaks at space, tab, newline, vertical tab, form feed and carriage return, and nowhere else |
| PresencePolicy.FlipsExactly | presence-service/presence.c:91-123 | a report flips the stable state if and only if it completes an uninterrupted run of real reports of the threshold's length |
| PresencePolicy.FlipsApart | presence-service/presence.c:101-120 | two flips are at least the later one's threshold of reports apart, whatever happens between them |
| PresencePolicy.OnlyTransitions | presence-service/presence.c:50-59 | over every run callbacks alternate, and the last one is stable and not latched while the state is known |
| PresencePolicy.ForceOffHoldsFor | presence-service/presence.c:135-143 | after ForceOff no presence is announced before 2 * o + v further reports, o and v being the least the minutes of those reports demand |
| PresencePolicy.ForceOffHolds | presence-service/presence.c:135-143 | at any time of day, with the smaller of each two thresholds |
| PresencePolicy.ForceOffBoundIsTightAt | presence-service/presence.c:107-119 | at any two minutes exactly so many bring presence back |
| PresencePolicy.ForceOffBoundIsTight | presence-service/presence.c:33-48 | with a silent window there are minutes that reach the bound for any time of day |
| PresencePolicy.ForceOffWithoutWindow | presence-service/presence.c:33-37 | without one, bound and example are those of the ordinary thresholds |
| PresencePolicy.ForceOnAnnounces | presence-service/presence.c:125-133 | from any state ForceOn settles on presence, latch cleared, and tells consumers at once unless they know |
| PresencePolicy.ForceOffAnnounces | presence-service/presence.c:135-143 | from any state ForceOff latches and tells of no presence at once unless they know |
| PresencePolicy.SensorDownAnnounces | presence-service/presence.c:157-165 | from any state a lost sensor settles on no presence, latch cleared, and tells consumers at once unless they know |
| PresencePolicy.ForceOnHolds | presence-service/presence.c:101-133 | after ForceOn, with reports and further ForceOns only, nothing is told before as many vacant reports as their minutes demand at the least |
| PresencePolicy.SensorDownHolds | presence-service/presence.c:101-165 | after a lost sensor nothing is told before as many occupied reports as their minutes demand at the least |
| PresencePolicy.ForceOnAndSensorDownEnd | presence-service/presence.c:106-122 | and at any one minute exactly that many bring the change, told once |
| PresencePolicy.SilentIsClockwise | presence-service/presence.c:33-48 | the window is the stretch of the clock from start to end, also across midnight |
| PresencePolicy.FirstCommit | presence-service/presence.c:145-155 | after sensor up the state is known from the delay-th report on, and nothing is announced before |
| PresencePolicy.FirstCommitTakesReport | presence-service/presence.c:101-105 | it becomes what that report says, and that is what consumers know then, or no presence while latched |
| PresencePolicy.SensorUpIsSilent | presence-service/presence.c:145-155 | coming up tells consumers nothing, keeps the latch and starts the reports over |
| PresencePolicy.Presence.constructor | presence-service/presence.c:61-83 | a threshold of zero counts as one; nothing announced |
| PresencePolicy.Presence.Announce | presence-service/presence.c:50-59 | calls back on a known, changed value only |
| PresencePolicy.Presence.OnReport | presence-service/presence.c:91-123 | does what the policy says to a report |
| PresencePolicy.Presence.DoForceOn | presence-service/presence.c:125-133 | moves the fields and calls back as Apply says of ForceOn, whose meaning ForceOnAnnounces and ForceOnHolds give |
| PresencePolicy.Presence.DoForceOff | presence-service/presence.c:135-143 | moves the fields and calls back as Apply says of ForceOff, whose meaning ForceOffAnnounces and ForceOffHoldsFor give |
| PresencePolicy.Presence.OnSensorUp | presence-service/presence.c:145-155 | restarts the pipeline and keeps latch and announcement |
| PresencePolicy.Presence.OnSensorDown | presence-service/presence.c:157-165 | moves the fields and calls back as Apply says of a lost sensor, whose meaning SensorDownAnnounces and SensorDownHolds give |
| JsonEscape.Print | dbus-mqtt-bridge/host_info.c:61-81 | leaves in the buffer, terminated, the longest escaped prefix that fits |
| JsonEscape.CompleteExactly | dbus-mqtt-bridge/host_info.c:61-81 | the text comes out whole if and only if its escape is empty or leaves two bytes |
| JsonEscape.LengthsThatFit | dbus-mqtt-bridge/host_info.c:61-81 | every text of n bytes is safe if and only if n is zero or 2 * n + 2 bytes are there |
| JsonEscape.NamesAlwaysComplete | dbus-mqtt-bridge/host_info.c:83-90 | hostname and model, at most 127 bytes, always fit their 256 |
| JsonEscape.AddressComplete | dbus-mqtt-bridge/host_info.c:83-90 | an address is whole unless it fills its field to the last byte |
| JsonEscape.ReadBack | dbus-mqtt-bridge/host_info.c:61-81 | a reader of section 7 of RFC 8259 gets back the printable characters, and stops at the caller's closing quote |
| JsonEscape.OutputReadsAsPrefix | dbus-mqtt-bridge/host_info.c:66-79 | so it does for a cut text: no escape pair is split |
| JsonEscape.EscapeKeepsUtf8 | dbus-mqtt-bridge/host_info.c:67-78 | a well-formed UTF-8 text stays well-formed |
| JsonEscape.CutKeepsUtf8 | dbus-mqtt-bridge/host_info.c:66-79 | the escape of the first n bytes of a well-formed text is well-formed if and only if byte n begins a character or there is none |
| JsonEscape.OutputIsUtf8Exactly | dbus-mqtt-bridge/host_info.c:61-81 | what is printed of a well-formed text is well-formed if and only if all of it fits or the first byte that does not fit is no trailing one |
| JsonEscape.Utf8Edges | dbus-mqtt-bridge/host_info.c:66-79 | well-formed is meant as in section 3 of RFC 3629: no overlong form, no surrogate, nothing past U+10FFFF |
| JsonEscape.NamesStayUtf8 | dbus-mqtt-bridge/host_info.c:83-90 | hostname and model come out well-formed whenever they are |
| JsonEscape.AddressStaysUtf8 | dbus-mqtt-bridge/host_info.c:83-90 | an ASCII address comes out well-formed, cut or not |
| JsonEscape.AddressBufferCanSplit | dbus-mqtt-bridge/host_info.c:83-90 | 61 letters and a two-byte one in the address field would be split |

## Left out

- PhotoProvider.NeverStale: the generation is unbounded, where the code has 32 bits; 2^32 invalidations during one fetch are not modelled.
- PhotoCache.Cache.Place: dump_to_disk and the metadata strings' allocation are left out, and dup and strdup succeed.
- PhotoProvider.ChangeNeverLost: the backend's atomics are fields of a transition system rather than of a class, because each load and exchange is a step of its own; the server is a map from client to settings that changes only when told to. The backend that reads an Immich library is not part of this model.
- PhotoProvider.WaitingConsumerIsFed: how soon a thread gets to run, the pauses after a failed fetch and the length of a wait are not timed; the same holds for RenderLoop.PressIsServed, which also leaves signals out.
- RenderLoop.NoLostWakeup: a semaphore call that fails for another reason than a signal or a timeout stops the thread in the code and is left out; so are the e-ink panel, the photo configuration push and the teardown's last picture.
- RenderLoop.PauseIsFinal: a frame is one of three pictures here; what is in it is ImgRender's matter.
- CommandQueue.Fifo: memory is sequentially consistent, where the code uses acquire and release.
- FrameStream.Receiver.OnByte: waiting for a response, its timeout and the serial port are left out.
- ImgRender.Render: scales and positions are exact reals, where the code rounds floats; an image has at least one pixel, as a decoded one has. The framebuffer is rows as long as its stride, a word is four bytes, and the pixel buffer is rows of three-byte pixels.
- Overlay.Layer.Fill: rasterising always succeeds and depends on source and size only; the search for a font size and the painting of the scrim are cairo's part of the picture.
- Overlay.LayersFollowSettings: the clock is unbounded, where the code has 64 bits of nanoseconds.
- PresencePolicy.Presence.OnReport: counters are unbounded, where the code has unsigned int.
- JsonEscape.ReadBack: code point escapes are not read, because none is printed; the numbers and the layout of the JSON object around the strings are left out.
- WordWrap.RenderText: where a line is drawn on the surface is left out.
- The D-Bus, MQTT, curl, DRM, GPIO, SPI and termios calls, configuration files, display leases, the command-line tools, the album picker and the topic claim of the bridge are left out: what is modelled meets them only as inputs.
- The sensor session (occupancy-sensor-ld2410s/ld2410s_uart/session.c) is left out: its wait ends on any response, matching or not, and the rest brackets calls with a mutex.
