# LeapOVRPassthrough core, modelled in Dafny

LeapOVRPassthrough shows the image of a Leap Motion camera as a SteamVR overlay. A swipe of a
hand past the camera is meant to toggle the overlay; in the repository's main program the
overlay controller is commented out, so nothing reads the swipe latch yet. This project models
three parts of the program:

- **The swipe detector** (`LeapHandler`, module `Leap`, file `leap_handler.dfy`).
  - Every camera image gives one count: the pixels in its upper half whose brightness is at
    least 100.
  - The count goes into a 50-slot ring buffer.
  - Reading backwards from the newest slot, the detector measures the run of counts that are
    each at least 30000 and strictly below the newer count before them.
  - A run of five or more raises a swipe latch, subject to a debounce on the steady clock.
  - `swipeDetected` returns the latch and clears it (no caller in the shown files).
- **The frame store** (`GraphicsManager`, module `Graphics`, file `graphics_manager.dfy`).
  - `setFrame` keeps a copy of the latest image and marks the frame as changed. It marks the
    dimensions as changed when they differ from the stored ones; that mark stays set until the
    next texture update, and the buffer is reallocated whenever it is set.
  - `updateTexture` consumes those flags. It regenerates the video texture when the dimensions
    changed and respecifies it otherwise. The graphics-library calls are recorded as a ghost
    log of `TextureUpload` events.
  - `wasUpdated` reports whether a texture was ever uploaded.
  - The 100 by 100 white placeholder frame of `init` is also modelled.
- **The test pattern of the minimal overlay example** (module `MinimalOverlay`, file
  `minimal_overlay.dfy`). `createTestTexture` fills a `width*height` RGBA buffer row by row:
  red is the column modulo 256, green is 100, blue is 0 and alpha is 255.

`bytes.dfy` defines the fixed-width types: `byte` is `uint8_t` and `uint32` is `uint32_t`.
`arith.dfy` holds two monotonicity facts about products that the index proofs share.

Objects that the source updates in place are classes:
- `LeapHandler` holds the ring as an `array<uint32>`, the next-slot index, the latch and the
  time of the last swipe.
- `GraphicsManager` holds the dimensions, the pixel `array<byte>` and the three flags.

The loops of the source are `while` loops, proved against specification functions:
- `BrightUpperCount` for the count;
- `RunLength` for the run (its meaning is pinned down by `IsLongestRun`);
- `TestPattern` for the fill.

Time is a parameter `now` in steady-clock ticks of one nanosecond.
`std::chrono::duration_cast<seconds>` is division truncating toward zero.

The debounce compares the elapsed whole seconds with `2 * std::chrono::seconds()`. A
default-constructed duration is zero, so the code debounces by one full second, not two. The
model follows the code, and `DebounceIsOneSecond` states the consequence.

## Model

| member | source | states |
|---|---|---|
| Leap.CountAtLeast | LeapOVRPassthrough/LeapHandler.cpp:190-200 | the number of samples at or above the threshold never exceeds the number of samples examined |
| Leap.CountAtLeastIsCardinality | LeapOVRPassthrough/LeapHandler.cpp:190-200 | the running count equals the size of the set of positions whose sample is at least the threshold |
| Leap.UpperIndex | LeapOVRPassthrough/LeapHandler.cpp:192-194 | every pixel (x, y) with x < width and y < height/2 has row-major index `y*width+x` below `(height/2)*width` |
| Leap.UpperIndexInverse | LeapOVRPassthrough/LeapHandler.cpp:192-194 | every index below `(height/2)*width` is the index of exactly the pixel (i mod width, i div width) of the upper half |
| Leap.BrightSampleIsBrightPixel | LeapOVRPassthrough/LeapHandler.cpp:192-198 | a bright sample among the first `(height/2)*width` is a bright pixel of the upper half |
| Leap.BrightPixelIsBrightSample | LeapOVRPassthrough/LeapHandler.cpp:192-198 | a bright pixel of the upper half is a bright sample among the first `(height/2)*width` |
| Leap.BrightUpperCountPixels | LeapOVRPassthrough/LeapHandler.cpp:186-200 | the count is the number of pixels with x < width, y < height/2 and brightness >= 100, and is at most `(height/2)*width` |
| Leap.LowerHalfIgnored | LeapOVRPassthrough/LeapHandler.cpp:192-198 | two images that agree on the upper half give the same count, whatever their lower halves hold |
| Leap.SlotOf | LeapOVRPassthrough/LeapHandler.cpp:221-222 | the slot of the i-th newest entry, computed with the source's add-the-size-if-negative step, is `(next - i) mod 50` and lies in the ring |
| Leap.PushShiftsHistory | LeapOVRPassthrough/LeapHandler.cpp:204-209 | after a push, the pushed value is the newest entry and every older entry is one position further back |
| Leap.RunFromIsLongest | LeapOVRPassthrough/LeapHandler.cpp:220-236 | continuing the scan from a run of i-1 entries ends on a run that cannot be extended |
| Leap.RunLengthIsLongest | LeapOVRPassthrough/LeapHandler.cpp:212-239 | `RunLength` is a run (each entry >= 30000 and strictly below the newer one, the newest below UINT32_MAX), cannot be extended, and is at most 50 |
| Leap.LongestRunUnique | LeapOVRPassthrough/LeapHandler.cpp:220-236 | at most one length is a non-extendable run, so `IsLongestRun` determines the result |
| Leap.LowNewestMeansNoRun | LeapOVRPassthrough/LeapHandler.cpp:226-228 | a newest count below 30000 gives a run of length 0 |
| Leap.DebounceIsOneSecond | LeapOVRPassthrough/LeapHandler.cpp:173 | the debounce test passes exactly when at least one full second (10^9 ticks) has elapsed since the last swipe |
| Leap.LeapHandler.constructor | LeapOVRPassthrough/LeapHandler.cpp:61-65 | a fresh 50-slot ring of zeros, next slot 0, latch down, last swipe at the construction time |
| Leap.LeapHandler.UpdateBrightUpperPixels | LeapOVRPassthrough/LeapHandler.cpp:186-210 | writes the 32-bit bright upper count into the next slot, leaves the other slots unchanged, and advances the next slot modulo 50, so the count becomes the newest entry |
| Leap.LeapHandler.CountLastBUPIncreasing | LeapOVRPassthrough/LeapHandler.cpp:212-239 | returns the longest rising run of high counts ending at the newest entry (at most 50; 0 when the newest is below 30000) and changes nothing |
| Leap.LeapHandler.SwipeDetected | LeapOVRPassthrough/LeapHandler.cpp:116-121 | returns the latch and clears it |
| Leap.LeapHandler.OnImage | LeapOVRPassthrough/LeapHandler.cpp:163-181 | pushes the image's count; raises the latch and records `now` exactly when the run is >= 5 and the debounce passes, otherwise keeps both; stores the image in the frame store with the frame store's full `setFrame` effect (dimensions, copied samples, sticky dimensions flag, reallocation or reuse, `updated` and uploads unchanged) |
| Leap.SwipeReportedOnce | LeapOVRPassthrough/LeapHandler.cpp:116-121 | of two consecutive reads of the latch the second is always false, and the first returns the latch as it was |
| Leap.AfterPushes | LeapOVRPassthrough/LeapHandler.cpp:204-209 | pushing counts onto a fresh ring keeps its 50 slots |
| Leap.AfterPushesAt | LeapOVRPassthrough/LeapHandler.cpp:204-209 | after up to 50 pushes onto a fresh ring, slot i holds the i-th pushed count and the untouched slots are 0 |
| Leap.RisingCountsSwipe | LeapOVRPassthrough/LeapHandler.cpp:170 | the counts 31000, 35000, 40000, 45000, 50000 give a run of 5, which is a swipe |
| Leap.BrokenCountsNoSwipe | LeapOVRPassthrough/LeapHandler.cpp:170 | the counts 31000, 35000, 30000, 45000, 50000 give a run of only 3, which is not a swipe |
| Leap.RisingImagesRaiseSwipe | LeapOVRPassthrough/LeapHandler.cpp:163-181 | a fresh handler fed five images with rising counts 31000..50000 finds a run of 5, and when the fifth image comes at least one second after construction the latch is raised and the next `swipeDetected` reports it |
| Graphics.GraphicsManager.constructor | LeapOVRPassthrough/GraphicsManager.cpp:93-96 | allocates a buffer of `width*height` samples for the initial dimensions, with no frame pending and nothing uploaded |
| Graphics.GraphicsManager.SetFrame | LeapOVRPassthrough/GraphicsManager.cpp:205-227 | stores the dimensions and a copy of the first `w*h` samples; marks the frame changed; marks the dimensions changed when they differ (the mark persists until consumed); reallocates exactly then and otherwise reuses the buffer |
| Graphics.GraphicsManager.UpdateTexture | LeapOVRPassthrough/GraphicsManager.cpp:176-201 | does nothing when no frame is pending; otherwise uploads the current frame once (regenerating the texture if the dimensions changed, respecifying it otherwise), clears both flags and sets `updated` |
| Graphics.GraphicsManager.WasUpdated | LeapOVRPassthrough/GraphicsManager.cpp:234-238 | reports whether a texture was uploaded (the class invariant ties the flag to a non-empty upload log), without clearing the flag |
| Graphics.PlaceholderPixels | LeapOVRPassthrough/GraphicsManager.cpp:158-162 | a fresh buffer of 100*100 samples, every one 255 |
| Graphics.LatestFrameWins | LeapOVRPassthrough/GraphicsManager.cpp:176-227 | two frames stored before one texture update produce a single upload, of the second frame's samples |
| Graphics.SameDimensionsReuseBuffer | LeapOVRPassthrough/GraphicsManager.cpp:176-227 | once the flags are consumed, a frame of the same dimensions keeps the buffer and respecifies the texture with the new samples |
| MinimalOverlay.PixelOffset | MinimalOverlayExample/MinimalOverlayExample.cpp:190 | the four bytes of pixel (x, y) at `(y*width+x)*4` lie inside the `width*height*4` buffer |
| MinimalOverlay.RowMajor | MinimalOverlayExample/MinimalOverlayExample.cpp:188-190 | the row-major index `y*width+x` gives back row y and column x |
| MinimalOverlay.PixelInside | MinimalOverlayExample/MinimalOverlayExample.cpp:186-190 | every pixel index `y*width+x` of the image is below `width*height` |
| MinimalOverlay.PatternAtPixel | MinimalOverlayExample/MinimalOverlayExample.cpp:190-194 | at pixel (x, y) the pattern holds `x & 0xFF`, 100, 0 and 255 |
| MinimalOverlay.PixelOffsetsDistinct | MinimalOverlayExample/MinimalOverlayExample.cpp:188-195 | no two (pixel, channel) writes of the fill hit the same byte |
| MinimalOverlay.PixelOffsetsCover | MinimalOverlayExample/MinimalOverlayExample.cpp:186-196 | every byte of the buffer is written by the fill, as one channel of one pixel |
| MinimalOverlay.TestPatternPixels | MinimalOverlayExample/MinimalOverlayExample.cpp:185-196 | the test image has `width*height*4` bytes and each pixel holds the pattern's four channels |
| MinimalOverlay.FilledStep | MinimalOverlayExample/MinimalOverlayExample.cpp:190-194 | writing the next pixel's four channels extends the filled prefix by one pixel and keeps the earlier pixels |
| MinimalOverlay.FilledIsPattern | MinimalOverlayExample/MinimalOverlayExample.cpp:186-196 | a buffer whose every pixel is filled is exactly the test image |
| MinimalOverlay.FillRow | MinimalOverlayExample/MinimalOverlayExample.cpp:189-195 | one pass of the inner loop fills row y, so the first `(y+1)*width` pixels hold the pattern, and leaves every byte after row y unchanged |
| MinimalOverlay.CreateTestTexture | MinimalOverlayExample/MinimalOverlayExample.cpp:185-196 | returns a fresh buffer of `width*height*4` bytes that is exactly the test image |

## Left out

- Graphics-library work is not modelled: shaders, the framebuffer, `updateFramebuffer`, `getVideoTexture` and the texture upload in `createTestTexture`. Texture uploads appear only as the ghost `uploads` log.
- The LeapC connection is not modelled (`openConnection`, `join`, the polling thread, log events). The image event's width, height and sample bytes become parameters of `OnImage`, and `steady_clock::now()` becomes the parameter `now`.
- Threads and mutexes: each mutex-guarded method of `GraphicsManager` is one atomic method. The latch is written on the sensor thread without a lock; interleavings with any reader are not modelled.
- The singletons (`getInstance`), `OVROverlayController`, the main loop in `LeapOVRPassthrough.cpp` and `utils.cpp` are not part of this model. They are callers and wrappers of the modelled core.
- Graphics.GraphicsManager.constructor: the repository's header does not show the initial values of `m_width`, `m_height` and the flags. The constructor takes the initial dimensions as parameters and starts every flag false.
- Leap.LeapHandler.constructor: the repository's header does not declare the next-slot index or the latch. They start at 0 and false.
- Graphics.PlaceholderPixels: `init` installs the 100 by 100 placeholder but leaves `m_width`/`m_height` unchanged. The placeholder is therefore modelled as a stand-alone buffer, not installed as the current frame of a `GraphicsManager`, whose invariant ties the buffer length to the dimensions.
- 32-bit `int` arithmetic (`y*width+x`, `width*height`, `width*height*4`) is modelled on unbounded non-negative integers: overflow and negative dimensions are not modelled. The `uint32_t` bright-pixel counter's wrap-around is modelled (`StoredCount`).
- The state `init` leaves behind is not covered: it installs the 10000-byte placeholder (GraphicsManager.cpp:159) but keeps `m_width`/`m_height`, so a first frame of the old size would copy `w*h` bytes into the placeholder buffer. `SetFrame` requires the buffer to match the stored dimensions, which that state breaks.
- A `malloc` that returns null is not modelled. Allocation always succeeds.
- MinimalOverlay.FillRow: the inner loop of `createTestTexture` is a separate method, so each row is proved on its own. The writes and their order are those of the source.
