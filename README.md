# MineRL video frames: the packed frame buffer and its decoders

This project models how MineRL moves one rendered frame from the Minecraft
side to the Python side, and proves what survives the trip.

- **The producer.** `VideoProducerImplementation` (Java, in the Malmo mod) packs a frame into a caller-supplied byte buffer.
  - The RGB bytes of `glReadPixels` go first: 3 bytes per pixel, rows bottom to top.
  - With depth wanted, the buffer is then viewed as floats (`asFloatBuffer()`). The producer puts the depth samples from float index `3n/4` on, where `n = width*height`, then the 16 model-view floats, then the 16 projection floats.
  - `getRequiredBufferSize` says how big the buffer must be.
  - `parseParameters`, `prepare`, `getFrame` and `cleanup` form the producer's lifecycle. It allocates a capture framebuffer and a depth staging buffer.
- **The POV decoder.** `POVObservation.from_hero` (Python, `pov.py`) cuts the byte array back up with `np.frombuffer` at fixed byte offsets. It reshapes the RGB and depth runs row-major to `(H, W, C)` and flips the rows so that row 0 is the top.
- **The depth decoder.** `DepthObservation.from_hero` (`depth.py`) does the same for a buffer that holds only depth floats.
- **The rest of each handler.** Both handlers also declare an observation space, a `repr`, and a `|` that merges two equal configurations.

The files:

- `common.dfy`: Option/Result, the Python errors that matter, gym-style spaces, and the decimal `repr` of a resolution tuple with its injectivity.
- `wire.dfy`: floats as opaque 4-byte words, and the two views of one buffer.
  - The float view is a `FloatView` class whose absolute `Put` writes the bytes behind it.
  - `Overlay` is a run of floats put from a float index on.
  - `FloatsAt` is `np.frombuffer` of float32 at a byte offset. `FrombufferCheck` gives that call's bound checks.
- `images.dfy`: `(H, W, C)` arrays as nested sequences, row-major `reshape`, `[::-1, :, :]` and `np.zeros`.
- `video_producer.dfy`: the producer.
  - `PackFrame` is the specification of the buffer after `getFrame`.
  - A `VideoProducerImplementation` class has the source's fields. Its `GetFrame` is proved to produce `PackFrame`. With depth it runs, through `PackDepthFrame`, the depth loop (`PutDepthSamples`) and the two matrix loops (`PutMatrix`) over an `array<bv8>`.
  - Lemmas give the placement of every put, the bound on every put, and the overlap with the RGB region when `n` is not a multiple of 4.
- `pov.dfy` and `depth.dfy`: the two handlers.
  - The POV `from_hero` is modelled as written and, separately, as intended (see Findings).
- `round_trip.dfy`: what the POV decoder gets back from a buffer the producer filled.

## Model

| member | source | states |
|---|---|---|
| `VideoProducer.RequiredBufferSize` | minerl/Malmo/Minecraft/src/main/java/com/microsoft/Malmo/MissionHandlers/VideoProducerImplementation.java:130-139 | 3n bytes without depth. With depth it is 4·(float index one past the last projection element) + (3n mod 4), i.e. 7n + 128 bytes. The size fits a Java int. |
| `VideoProducer.VideoProducerImplementation.GetRequiredBufferSize` | minerl/Malmo/Minecraft/src/main/java/com/microsoft/Malmo/MissionHandlers/VideoProducerImplementation.java:130-139 | The size is 3·(getWidth·getHeight), plus 4·(getWidth·getHeight) + 2·16·4 when depth is wanted. |
| `VideoProducer.DepthStartVsRgbEnd` | minerl/Malmo/Minecraft/src/main/java/com/microsoft/Malmo/MissionHandlers/VideoProducerImplementation.java:91-93 | Depth starts at byte 4·(3n/4) = 3n − (3n mod 4). It starts exactly at the end of RGB iff n % 4 == 0. |
| `VideoProducer.PutsWithinFloatCapacity` | minerl/Malmo/Minecraft/src/main/java/com/microsoft/Malmo/MissionHandlers/VideoProducerImplementation.java:93-115 | For every n, the highest put index 3n/4 + n + 31 is below the float capacity of a buffer of the required size. |
| `VideoProducer.RgbFrameWritesOnlyRgbRegion` | minerl/Malmo/Minecraft/src/main/java/com/microsoft/Malmo/MissionHandlers/VideoProducerImplementation.java:141-159 | Without depth, bytes [0, 3n) hold the RGB readback and every later byte keeps its old value. |
| `VideoProducer.PackedFloat` | minerl/Malmo/Minecraft/src/main/java/com/microsoft/Malmo/MissionHandlers/VideoProducerImplementation.java:92-115 | Float i of depth ++ model-view ++ projection occupies bytes [4·(3n/4 + i), +4) of the packed buffer, inside the buffer. |
| `VideoProducer.AlignedOffsets` | minerl/Malmo/Minecraft/src/main/java/com/microsoft/Malmo/MissionHandlers/VideoProducerImplementation.java:93-110 | When n % 4 == 0, the float indexes map to bytes: depth i at 3n + 4i, model-view k at 7n + 4k, projection k at 7n + 64 + 4k. |
| `VideoProducer.DepthSamplePlacement` | minerl/Malmo/Minecraft/src/main/java/com/microsoft/Malmo/MissionHandlers/VideoProducerImplementation.java:91-98 | Depth sample i is at float index 3n/4 + i. When n % 4 == 0 that is byte 3n + 4i. |
| `VideoProducer.MatrixPlacement` | minerl/Malmo/Minecraft/src/main/java/com/microsoft/Malmo/MissionHandlers/VideoProducerImplementation.java:102-115 | Model-view k is at float 3n/4 + n + k and projection k at 3n/4 + n + 16 + k. When n % 4 == 0 these are bytes 7n + 4k and 7n + 64 + 4k, and the last projection float ends at the required size. |
| `VideoProducer.RgbSurvivesIffAligned` | minerl/Malmo/Minecraft/src/main/java/com/microsoft/Malmo/MissionHandlers/VideoProducerImplementation.java:87-98 | With depth, RGB bytes below 4·(3n/4) survive, and the next 3n mod 4 bytes hold the head of depth sample 0. The whole RGB region survives iff n % 4 == 0 or those RGB bytes equal that head. |
| `VideoProducer.PackFrameIdempotent` | minerl/Malmo/Minecraft/src/main/java/com/microsoft/Malmo/MissionHandlers/VideoProducerImplementation.java:70-116 | Packing the same readback a second time leaves the buffer unchanged. |
| `VideoProducer.ReadPixelsInto` | minerl/Malmo/Minecraft/src/main/java/com/microsoft/Malmo/MissionHandlers/VideoProducerImplementation.java:87-88 | A readback into a buffer at position 0 fills the front with the pixels and leaves the rest as it was. |
| `VideoProducer.PackFrame` | minerl/Malmo/Minecraft/src/main/java/com/microsoft/Malmo/MissionHandlers/VideoProducerImplementation.java:70-116 | The packed buffer has the length of the old one, and every byte at or after the required size keeps its old value. |
| `VideoProducer.PutMatrix` | minerl/Malmo/Minecraft/src/main/java/com/microsoft/Malmo/MissionHandlers/VideoProducerImplementation.java:103-115 | A 16-iteration put loop leaves the matrix's 16 floats put from float index offset on, over the bytes as they were. |
| `VideoProducer.PutMatrices` | minerl/Malmo/Minecraft/src/main/java/com/microsoft/Malmo/MissionHandlers/VideoProducerImplementation.java:102-115 | The model-view loop then the projection loop leave model-view ++ projection put from float index offset on. |
| `VideoProducer.PutDepthSamples` | minerl/Malmo/Minecraft/src/main/java/com/microsoft/Malmo/MissionHandlers/VideoProducerImplementation.java:93-98 | The depth loop leaves the n staging samples put from float index 3n/4 on, over the bytes as they were. |
| `VideoProducer.PutPayload` | minerl/Malmo/Minecraft/src/main/java/com/microsoft/Malmo/MissionHandlers/VideoProducerImplementation.java:93-115 | The depth loop and the two matrix loops together leave depth ++ model-view ++ projection put from float index offset on. |
| `VideoProducer.VideoProducerImplementation.constructor` | minerl/Malmo/Minecraft/src/main/java/com/microsoft/Malmo/MissionHandlers/VideoProducerImplementation.java:47-51 | A new producer has no parameters, no framebuffer and no depth buffer. |
| `VideoProducer.VideoProducerImplementation.ParseParameters` | minerl/Malmo/Minecraft/src/main/java/com/microsoft/Malmo/MissionHandlers/VideoProducerImplementation.java:54-61 | Returns true iff handed a VideoProducer object and then stores it, so that getWidth and getHeight return the parsed width and height. For null or another class it returns false and the stored parameters are unchanged. |
| `VideoProducer.VideoProducerImplementation.GetWidth` | minerl/Malmo/Minecraft/src/main/java/com/microsoft/Malmo/MissionHandlers/VideoProducerImplementation.java:118-122 | After a successful parseParameters, the width of the parsed VideoProducer object; prepare sizes the framebuffer by it. |
| `VideoProducer.VideoProducerImplementation.GetHeight` | minerl/Malmo/Minecraft/src/main/java/com/microsoft/Malmo/MissionHandlers/VideoProducerImplementation.java:124-128 | After a successful parseParameters, the height of the parsed VideoProducer object; prepare sizes the framebuffer by it. |
| `VideoProducer.VideoProducerImplementation.Prepare` | minerl/Malmo/Minecraft/src/main/java/com/microsoft/Malmo/MissionHandlers/VideoProducerImplementation.java:161-170 | Allocates a live framebuffer of getWidth × getHeight, with depth. Only when depth is wanted, it also allocates a fresh staging buffer of width·height floats at position 0. Otherwise the staging buffer is untouched. |
| `VideoProducer.VideoProducerImplementation.Cleanup` | minerl/Malmo/Minecraft/src/main/java/com/microsoft/Malmo/MissionHandlers/VideoProducerImplementation.java:172-176 | Deletes the framebuffer. The live-framebuffer count drops by one if it was live. |
| `VideoProducer.VideoProducerImplementation.GetRGBFrame` | minerl/Malmo/Minecraft/src/main/java/com/microsoft/Malmo/MissionHandlers/VideoProducerImplementation.java:141-159 | The buffer becomes the 3n RGB bytes followed by its old tail. |
| `VideoProducer.VideoProducerImplementation.GetFrame` | minerl/Malmo/Minecraft/src/main/java/com/microsoft/Malmo/MissionHandlers/VideoProducerImplementation.java:70-116 | The buffer ends as `PackFrame` of its old contents. With depth, the staging buffer holds this frame's samples and is cleared (position 0, limit = capacity) for the next read. Without depth, the staging buffer, its position and its limit are unchanged. |
| `VideoProducer.VideoProducerImplementation.PackDepthFrame` | minerl/Malmo/Minecraft/src/main/java/com/microsoft/Malmo/MissionHandlers/VideoProducerImplementation.java:87-115 | With depth: the buffer becomes the RGB readback followed by its old tail, with depth ++ model-view ++ projection put from float index 3n/4 on; the staging buffer holds the samples and is cleared. |
| `VideoProducer.CaptureOneFrame` | minerl/Malmo/Minecraft/src/main/java/com/microsoft/Malmo/MissionHandlers/VideoProducerImplementation.java:161-176 | parse, prepare, one getFrame and cleanup pack the buffer and leave no framebuffer live. |
| `VideoProducer.PrepareTwiceLeaks` | minerl/Malmo/Minecraft/src/main/java/com/microsoft/Malmo/MissionHandlers/VideoProducerImplementation.java:161-176 | Two prepares before one cleanup leave one framebuffer live: prepare does not delete the previous one. |
| `Wire.Dec` | minerl/herobraine/hero/handlers/agent/observations/pov.py:59 | Reading four bytes as a float32 is the inverse of laying that float out. |
| `Wire.DecEnc` | minerl/herobraine/hero/handlers/agent/observations/pov.py:59 | Decoding a float's bytes gives the float back. |
| `Wire.PutFloat` | minerl/Malmo/Minecraft/src/main/java/com/microsoft/Malmo/MissionHandlers/VideoProducerImplementation.java:97 | An absolute put of float index i makes bytes [4i, 4i+4) decode to the float, and changes no other byte. |
| `Wire.OverlayExtend` | minerl/Malmo/Minecraft/src/main/java/com/microsoft/Malmo/MissionHandlers/VideoProducerImplementation.java:94-98 | One more put at the next float index extends the run of put floats by that float. |
| `Wire.Overlay` | minerl/Malmo/Minecraft/src/main/java/com/microsoft/Malmo/MissionHandlers/VideoProducerImplementation.java:94-115 | Putting a run of floats from float index at keeps the length, and leaves every byte outside [4·at, 4·(at + len)) as it was. |
| `Wire.OverlayConcat` | minerl/Malmo/Minecraft/src/main/java/com/microsoft/Malmo/MissionHandlers/VideoProducerImplementation.java:93-115 | Putting one run and then a second right after it is putting the two runs concatenated. |
| `Wire.FloatsAt` | minerl/herobraine/hero/handlers/agent/observations/pov.py:59 | `np.frombuffer` of float32 returns exactly count floats. |
| `Wire.FloatsAtReadsBytes` | minerl/herobraine/hero/handlers/agent/observations/depth.py:48 | Float i read at a byte offset is the float whose encoding is the 4 bytes at offset + 4i. |
| `Wire.FloatsAtOverlay` | minerl/herobraine/hero/handlers/agent/observations/pov.py:59-72 | Reading m float32 values at the byte offset of float index at + i gives back exactly the floats put there. |
| `Wire.FloatsAtEncoded` | minerl/herobraine/hero/handlers/agent/observations/depth.py:48 | Reading floats laid out back to back from offset 0 gives the floats back. |
| `Wire.FrombufferCheck` | minerl/herobraine/hero/handlers/agent/observations/pov.py:57-72 | `np.frombuffer` raises iff offset + count·itemsize exceeds the buffer length. |
| `Wire.FloatView.constructor` | minerl/Malmo/Minecraft/src/main/java/com/microsoft/Malmo/MissionHandlers/VideoProducerImplementation.java:92 | The float view shares the byte buffer's storage. |
| `Wire.FloatView.Capacity` | minerl/Malmo/Minecraft/src/main/java/com/microsoft/Malmo/MissionHandlers/VideoProducerImplementation.java:92 | The view holds floor(bytes/4) whole floats. |
| `Wire.FloatView.Put` | minerl/Malmo/Minecraft/src/main/java/com/microsoft/Malmo/MissionHandlers/VideoProducerImplementation.java:97 | The bytes behind the view become `PutFloat` of what they were. |
| `Images.Reshape` | minerl/herobraine/hero/handlers/agent/observations/pov.py:66 | A row-major reshape of h·w·c items has shape (h, w, c). |
| `Images.Zeros` | minerl/herobraine/hero/handlers/agent/observations/pov.py:62 | `np.zeros` has the requested shape and every element is zero. |
| `Images.FlipRows` | minerl/herobraine/hero/handlers/agent/observations/pov.py:66 | `[::-1, :, :]` keeps the number of rows, and row r is row len−1−r of the input. |
| `Images.FlipRowsInvolution` | minerl/herobraine/hero/handlers/agent/observations/pov.py:66 | Flipping the rows twice gives the image back. |
| `Images.FlippedPixel` | minerl/herobraine/hero/handlers/agent/observations/pov.py:66 | The source pixel (h−1−r)·w + c of a flipped pixel lies below h·w. |
| `Images.FlippedReshapeAt` | minerl/herobraine/hero/handlers/agent/observations/pov.py:66 | Element (r, c, k) of reshape-then-flip is flat item ((h−1−r)·w + c)·C + k. |
| `Images.FlippedReshapeShape` | minerl/herobraine/hero/handlers/agent/observations/pov.py:66 | Reshape-then-flip keeps the shape (h, w, c). |
| `Common.Reversed` | minerl/herobraine/hero/handlers/agent/observations/pov.py:41 | `[::-1]`: element i is element len−1−i of the input. |
| `Common.DecimalString` | minerl/herobraine/hero/handlers/agent/observations/pov.py:20 | `str` of an int is one or more decimal digits, exactly one for values below 10. |
| `Common.DecimalStringInjective` | minerl/herobraine/hero/handlers/agent/observations/pov.py:20 | Different ints print differently. |
| `Common.ResolutionRepr` | minerl/herobraine/hero/handlers/agent/observations/pov.py:20 | The repr of a resolution tuple has no letter 'h'. |
| `Common.ResolutionReprInjective` | minerl/herobraine/hero/handlers/agent/observations/pov.py:20 | Different resolutions print differently. |
| `Pov.PovObservation.ObservationSpace` | minerl/herobraine/hero/handlers/agent/observations/pov.py:35-48 | For resolution (W, H): Box [H, W, 3] uint8 in [0, 255]. With depth, a tuple of that and Box [H, W, 1] float32 in [0, 1]. |
| `Pov.PovObservation.ToString` | minerl/herobraine/hero/handlers/agent/observations/pov.py:16-17 | A non-empty name without a colon (`pov`). |
| `Pov.PovObservation.Repr` | minerl/herobraine/hero/handlers/agent/observations/pov.py:19-25 | The repr ends with `:` followed by `to_string()`, i.e. `:pov`. |
| `Pov.PovObservation.FromHero` | minerl/herobraine/hero/handlers/agent/observations/pov.py:54-75 | As written: succeeds iff the buffer has at least 3n bytes, or 7n + 80 with depth. On success the images have the declared shapes, and the depth image is present iff depth is included. |
| `Pov.PovObservation.FromHeroIntended` | minerl/herobraine/hero/handlers/agent/observations/pov.py:54-75 | As intended: succeeds iff the buffer is empty, or has at least 3n bytes, or 7n + 128 with depth, with the same shape guarantees. |
| `Pov.PovObservation.Merge` | minerl/herobraine/hero/handlers/agent/observations/pov.py:77-86 | Succeeds iff the other is a POVObservation with equal include_depth and resolution, and returns an equal observation. Otherwise it is the ValueError. |
| `Pov.ReprMentionsDepthIffIncluded` | minerl/herobraine/hero/handlers/agent/observations/pov.py:19-25 | The repr contains `, include_depth=True` iff depth is included. |
| `Pov.ReprInjective` | minerl/herobraine/hero/handlers/agent/observations/pov.py:19-25 | Equal reprs mean equal configurations. |
| `Pov.MergeSymmetric` | minerl/herobraine/hero/handlers/agent/observations/pov.py:77-86 | Merging a with b and b with a succeed together, with the same result. |
| `Pov.FromHeroConformsToSpace` | minerl/herobraine/hero/handlers/agent/observations/pov.py:35-68 | Decoded images have exactly the shapes the observation space declares. |
| `Pov.FromHeroReads` | minerl/herobraine/hero/handlers/agent/observations/pov.py:56-72 | For n > 0, a buffer is decoded as follows: RGB is the first 3n bytes. Depth is the n floats at byte 3n. Model-view and projection are the 16 floats at bytes 7n and 7n + 16, each reshaped and flipped as applicable. |
| `Pov.FromHeroIntendedReads` | minerl/herobraine/hero/handlers/agent/observations/pov.py:56-72 | The same reads for the intended decoder, except that the projection comes from byte 7n + 64. |
| `Pov.DecodersDifferOnlyInProjection` | minerl/herobraine/hero/handlers/agent/observations/pov.py:71-72 | On buffers both accept, the two decoders agree on RGB, depth and model-view. |
| `Pov.FromHeroRgbPixel` | minerl/herobraine/hero/handlers/agent/observations/pov.py:56-66 | rgb[r][c][ch] is byte ((H−1−r)·W + c)·3 + ch of the buffer. |
| `Pov.FloatRunPixel` | minerl/herobraine/hero/handlers/agent/observations/pov.py:68 | Pixel (r, c) of a flipped (H, W, 1) float run is float (H−1−r)·W + c of the run. |
| `Pov.FromHeroDepthPixel` | minerl/herobraine/hero/handlers/agent/observations/pov.py:59-68 | depth[r][c][0] is the float at byte 3n + 4·((H−1−r)·W + c). |
| `Pov.FromHeroRefusesEmptyBuffer` | minerl/herobraine/hero/handlers/agent/observations/pov.py:57-64 | As written, for n > 0 an empty buffer raises at the first `np.frombuffer`, so the zero fallback is never reached. |
| `Pov.FromHeroIntendedEmptyBufferIsZeros` | minerl/herobraine/hero/handlers/agent/observations/pov.py:61-64 | As intended, an empty buffer gives zero images of shape (H, W, 3) and, with depth, (H, W, 1). |
| `Depth.DepthObservation.ObservationSpace` | minerl/herobraine/hero/handlers/agent/observations/depth.py:31-44 | Box [H, W, 1] float32 in [0, 255] for resolution (W, H). |
| `Depth.DepthObservation.ToString` | minerl/herobraine/hero/handlers/agent/observations/depth.py:16-17 | A non-empty name without a colon (`depth`). |
| `Depth.DepthObservation.Repr` | minerl/herobraine/hero/handlers/agent/observations/depth.py:19-22 | The repr ends with `:` followed by `to_string()`, i.e. `:depth`. |
| `Depth.DepthObservation.FromHero` | minerl/herobraine/hero/handlers/agent/observations/depth.py:46-55 | Succeeds iff the length is a multiple of 4 and the buffer is empty or holds exactly H·W floats. A successful result has shape (H, W, 1). |
| `Depth.DepthObservation.Merge` | minerl/herobraine/hero/handlers/agent/observations/depth.py:57-65 | Succeeds iff the other is a DepthObservation of equal resolution, and returns an equal observation. Otherwise it is the ValueError. |
| `Depth.ReprInjective` | minerl/herobraine/hero/handlers/agent/observations/depth.py:19-22 | Equal reprs mean equal resolutions. |
| `Depth.FromHeroPixelMap` | minerl/herobraine/hero/handlers/agent/observations/depth.py:48-53 | depth[r][c][0] is float (H−1−r)·W + c of the whole buffer. |
| `Depth.FromHeroOfEncoded` | minerl/herobraine/hero/handlers/agent/observations/depth.py:46-55 | H·W floats laid out back to back decode to those floats reshaped and flipped. |
| `Depth.FromHeroEmptyBufferIsZeros` | minerl/herobraine/hero/handlers/agent/observations/depth.py:50-51 | An empty buffer decodes to zeros of shape (H, W, 1). |
| `Depth.MergeSymmetric` | minerl/herobraine/hero/handlers/agent/observations/depth.py:57-65 | Merging a with b and b with a succeed together, with the same result. |
| `RoundTrip.HandlerFor` | minerl/herobraine/hero/handlers/agent/observations/pov.py:47-56 | The POV handler for the producer's width and height counts the same n pixels. |
| `RoundTrip.DepthFrameRuns` | minerl/Malmo/Minecraft/src/main/java/com/microsoft/Malmo/MissionHandlers/VideoProducerImplementation.java:87-115 | For n % 4 == 0 and any buffer of at least the required size, the packed buffer reads back RGB at [0, 3n), depth at 3n, model-view at 7n and projection at 7n + 64. At 7n + 16 it reads model-view[4..16] ++ projection[0..4]. |
| `RoundTrip.DepthFrameRoundTrip` | minerl/herobraine/hero/handlers/agent/observations/pov.py:54-75 | For n % 4 == 0 and n > 0 and any buffer of at least the required size, the intended decoder recovers the flipped RGB image, the flipped depth image and both matrices exactly. |
| `RoundTrip.DepthFrameAsWritten` | minerl/herobraine/hero/handlers/agent/observations/pov.py:71-72 | On any buffer of at least the required size, the decoder as written recovers RGB, depth and model-view, but its projection is model-view[4..16] ++ projection[0..4]. That equals the projection iff the two happen to coincide. |
| `RoundTrip.ProjectionMisreadExample` | minerl/herobraine/hero/handlers/agent/observations/pov.py:72 | A concrete 2×2 frame on which the decoded projection differs from the one packed. |
| `RoundTrip.RgbFrameRoundTrip` | minerl/herobraine/hero/handlers/agent/observations/pov.py:56-66 | Without depth, both decoders recover the flipped RGB image from any buffer of at least the required size. |
| `RoundTrip.DecodedImageIsTopDown` | minerl/herobraine/hero/handlers/agent/observations/pov.py:66 | When GL returns a top-down image's rows bottom to top, the decoded image is that image. |

## Left out

- GL and Minecraft calls are not modelled. These are the framebuffer binds and blit, `framebufferRenderExt`, `GlStateManager.enableDepth`, and the deletion of the framebuffer's GPU objects. What `glReadPixels` and `glGetFloat` return is the `GlReadback` parameter. The framebuffer is a record with a `deleted` flag and a ghost count of live framebuffers.
- `prepare` also sets Minecraft's global `thirdPersonView` from the viewpoint parameter. That is engine state outside the producer; the viewpoint is kept in `VideoParams` but not acted on.
- `getVideoType` returns a constant and is not modelled. The `xml_template` Jinja texts are configuration text and are not modelled either.
- Float values are not modelled. A float is its four bytes, with no arithmetic, so the [0, 1] range of depth values is not stated. The model uses one byte layout for the Java put and for numpy's read. Whether the caller's ByteBuffer byte order matches numpy's native order depends on how that buffer was allocated, which is not part of this model.
- `VideoProducer.RequiredBufferSize`: does not model 32-bit wrap-around. The members that compute sizes, offsets or packed buffers (`RequiredBufferSize`, `GetRequiredBufferSize`, `PackFrame`, `Prepare`, `GetFrame` and the placement lemmas) require `FitsJavaInt` (width, height ≥ 0 and 7·width·height + 128 ≤ 2^31 − 1), so that none of the class's int expressions overflows. `parseParameters`, `getWidth`, `getHeight` and `cleanup` do no such arithmetic and do not require it.
- `VideoProducer.VideoProducerImplementation.GetFrame`: requires a buffer of at least the required size at position 0 and a prepared producer. A smaller buffer makes Java's `put` throw and an unprepared one throws NullPointerException; neither exception is modelled.
- `VideoProducer.VideoProducerImplementation.GetFrame`: requires that the caller's byte buffer is not the depth staging buffer. In Java one is a ByteBuffer and the other a FloatBuffer allocated by `prepare`, so they are distinct objects by type; the model's arrays need the fact stated.
- `VideoProducer.VideoProducerImplementation.GetWidth`: requires parsed parameters (`videoParams.Some?`). Before a successful `parseParameters` Java dereferences null and throws NullPointerException, which is not modelled.
- `VideoProducer.VideoProducerImplementation.GetHeight`: requires parsed parameters, for the same NullPointerException as `GetWidth`.
- `VideoProducer.VideoProducerImplementation.GetRequiredBufferSize`: requires parsed parameters, for the same NullPointerException as `GetWidth`.
- `VideoProducer.VideoProducerImplementation.Prepare`: requires parsed parameters, for the same NullPointerException as `GetWidth`.
- `VideoProducer.VideoProducerImplementation.Cleanup`: requires a framebuffer. Before `prepare` Java throws NullPointerException. Deleting an already deleted framebuffer is taken to do nothing, because Minecraft's `Framebuffer` is not part of this model.
- `Pov.PovObservation.FromHero`: the debugger breakpoint `ipdb.set_trace()` after the matrix reads is not modelled; decoding is taken to finish. Python keeps the matrices as locals and returns only `(rgb, depth)`; the model returns them too, so that what was read can be stated.
- `super().from_hero(obs)` is not part of this model. It is the `KeymapTranslationHandler` lookup that extracts the byte array; the byte array is the decoders' input.
- Resolutions are non-negative ints. A negative resolution is not modelled.
- numpy's internals are reduced to the bound checks of `np.frombuffer`, the reshape count check, and the shapes and index maps of `reshape`, `[::-1]` and `zeros`. The `spaces` library is reduced to the Box bounds, shape and dtype.

## Findings

| source | as written | input that shows it | evidently intended | confidence | as-written member | corrected member |
|---|---|---|---|---|---|---|
| minerl/herobraine/hero/handlers/agent/observations/pov.py:72 | The projection matrix is read with `offset=n_pixels * 7 + 16`, in bytes. That is float 4 of the model-view matrix, which the producer puts at bytes [7n, 7n + 64). | A 2×2 depth frame whose model-view is all 0.0f and projection all 1.0f. The decoded projection starts with twelve zeros. In general, any frame whose projection differs from model-view[4..16] ++ projection[0..4] shows it. `RoundTrip.ProjectionMisreadExample` and `RoundTrip.DepthFrameAsWritten` exhibit it; `RoundTrip.DepthFrameRoundTrip` proves the corrected read. | Read the projection at byte 7n + 64, right after the 16 model-view floats, where the producer puts it. | likely; not executed | `Pov.PovObservation.FromHero` | `Pov.PovObservation.FromHeroIntended` |
| minerl/herobraine/hero/handlers/agent/observations/pov.py:57-64 | The zero fallback for an empty RGB array comes after `np.frombuffer(..., count=n_pixels * 3)`. That call raises ValueError on a buffer shorter than 3n bytes. | An empty byte array for any resolution with width·height > 0 raises instead of giving zeros (`Pov.FromHeroRefusesEmptyBuffer`). The corrected decoder gives zeros (`Pov.FromHeroIntendedEmptyBufferIsZeros`). | An empty observation decodes to zero images of the declared shapes. | plausible; not executed | `Pov.PovObservation.FromHero` | `Pov.PovObservation.FromHeroIntended` |

The TODO at minerl/Malmo/Minecraft/src/main/java/com/microsoft/Malmo/MissionHandlers/VideoProducerImplementation.java:91 already records one limitation. When n is not a multiple of 4, depth starts 3n mod 4 bytes before the end of RGB and overwrites those RGB bytes. `VideoProducer.RgbSurvivesIffAligned` states this exactly, and every round-trip lemma assumes n % 4 == 0.
