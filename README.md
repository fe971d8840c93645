# wrms libass frame pipeline: a Dafny model

This project models the two pieces of the wrms subtitle frame pipeline that
carry real logic, and proves them against each other.

- **The native A8 frame packer and engine calls** (`src/wrms_libass.cpp`).
  - An `Engine` holds the configured frame size and the loaded ASS track.
  - `wrms_set_frame_size` and `wrms_set_track` validate their arguments with distinct return codes, and `wrms_set_track` replaces the track.
  - `wrms_render_a8` walks libass's `ASS_Image` list. It keeps the images with a positive width, height and stride and a bitmap. It packs them into a sprite array plus one concatenated bitmap blob with cumulative offsets.
  - `frame_zero` and `wrms_free_frame` reset a frame.
- **The Python sprite compositor** (`_rgba_from_libass_color` and `render_frame_to_webp` in `src/libass_render.py`).
  - It decodes libass's packed colour and clips every sprite against a `width × height` canvas.
  - It blends the sprites in list order into a zeroed RGBA `bytearray`, in place. The blend is straight-alpha source-over with the `(x + 127) // 255` rounding rule.

The headline result links the two pieces. Assume two libass invariants: every image's bitmap holds `stride * h` bytes, and rows are never wider than their stride. Assume also that the blob is addressable by the 32-bit offset field. Then every sprite the packer emits reads only inside its slice of the blob, so the compositor never raises `IndexError`. The image it returns is exactly the packed sprites painted in order over the transparent canvas (`LibassRender.PackedFrameNeverFaults`, `LibassRender.PackedFrameImage`). This holds for the compositor reading its mask bytes as bytes, as the code evidently intends. As written, its mask read raises `NotImplementedError` for every sprite it paints; see "Findings".

## Layout

| file | module | contents |
|---|---|---|
| `wrms_types.dfy` | `WrmsTypes` | C integer ranges, `Option`, the `wrms_sprite_t` and `wrms_frame_t` records |
| `arith.dfy` | `Arith` | two facts about multiplication and Euclidean division |
| `blend.dfy` | `Blend` | colour decode and its inverse, texel opacity, the channel and alpha blend |
| `canvas.dfy` | `Canvas` | the flat RGBA canvas, clipping, mask indexing, the specification of painting one sprite and a list of sprites, and pixel-level properties |
| `wrms_pack.dfy` | `WrmsPack` | the `ASS_Image` list as a sequence; the specification of the filter, count and pack passes and the layout they produce |
| `wrms_libass.dfy` | `WrmsLibass` | the `Engine` and `Frame` classes and the imperative C entry points |
| `libass_render.dfy` | `LibassRender` | the in-place compositor (nested row and texel loops over an `array<byte>`), the frame-level compositor and the whole Python render call |

Foreign calls are inputs.
- `ass_read_memory` is a function parameter `readMemory` from text to an optional track.
- `ass_render_frame` is the `images` sequence. An empty sequence stands for a null list.
- The success of both `malloc`s is one boolean, `allocOk`.

The Python `IndexError` that a read past a sprite's slice of the blob would raise is the result `RenderResult.IndexError`. The `NotImplementedError` of the as-written mask read is `RenderResult.UnsupportedFormat`. The WebP encoding is not modelled; a successful render yields the RGBA bytes.

Notes on the code:
- It does not reject a zero width or height. It composites onto an empty canvas.
- It does not validate each sprite against the blob before painting. It slices the blob as a memoryview, which silently cuts the slice short at the blob's end. Reading mask bytes as bytes, it fails with `IndexError` at the first mask read past the slice, after earlier sprites have been painted.
- It has no session state machine, batch rendering or time stepping; none is modelled.

## Model

| member | source | states |
|---|---|---|
| `Blend.RgbaFromLibassColor` | src/libass_render.py:30-36 | the decoded opacity is 0 exactly when the inverted-alpha byte is 0xFF, and 255 exactly when it is 0; the skip test `a0 == 0` thus skips exactly the fully transparent colours |
| `Blend.DecodeThenPack` | src/libass_render.py:30-36 | decoding a libass colour into (r, g, b, 255 - Ainv) and repacking it gives back the same 32-bit colour, so the decode loses nothing |
| `Blend.PackThenDecode` | src/libass_render.py:30-36 | packing any (r, g, b, a) with channels in 0..255 as r·2^24 + g·2^16 + b·2^8 + (255 - a) and decoding it gives back the same four values |
| `Blend.TexelAlpha` | src/libass_render.py:106 | the effective opacity `(a0 * m + 127) // 255` is a byte no larger than a0: exactly a0 under a full mask (m = 255), 0 under an empty mask (m = 0) |
| `Blend.BlendChannel` | src/libass_render.py:115-117 | a blended colour channel stays between the source and destination values, so within 0..255; fully opaque gives the source, fully transparent the destination |
| `Blend.BlendAlpha` | src/libass_render.py:118 | the new alpha `a + (da * (255 - a) + 127) // 255` never exceeds 255 and never drops below either input; a = 255 gives 255, a = 0 keeps da |
| `Canvas.Blank` | src/libass_render.py:54 | the fresh canvas has `width * height * 4` bytes, all zero |
| `Canvas.SpritePainted` | src/libass_render.py:70-118 | painting one sprite keeps the canvas length and changes no byte outside the clipped rectangle of a sprite that passes the skip test |
| `Canvas.Composited` | src/libass_render.py:60-61 | compositing the sprite list keeps the canvas length; the content is stated by the lemmas below |
| `Canvas.SliceLen` | src/libass_render.py:74 | the memoryview slice `bm_mv[off : off + stride * h]` lies inside the blob, is never longer than `stride * h`, is exactly that long when the sprite's bytes fit, and is empty when the offset is at or past the end |
| `Canvas.MaskIndexBounds` | src/libass_render.py:99-102 | the mask index `(sy0 + yy) * stride + sx0 + xx` of every visible pixel lies between 0 and the index read for the bottom-right visible pixel |
| `Canvas.SpriteFitsIff` | src/libass_render.py:99-102 | every mask read of a painted sprite stays inside its slice if and only if the read for its bottom-right visible pixel does |
| `Canvas.LastMaskIndexBelowBytes` | src/libass_render.py:99-102 | with rows no wider than the stride, the last mask read lies below `stride * h` |
| `Canvas.PackedSpriteFits` | src/libass_render.py:74 | a sprite with `offset + stride * h <= bitmaps_len` and `w <= stride` passes the in-slice check on any canvas |
| `Canvas.OffCanvasIsNoOp` | src/libass_render.py:76-95 | a sprite whose clipped rectangle is empty leaves the canvas byte for byte unchanged |
| `Canvas.PixelInCanvas` | src/libass_render.py:109 | every byte index `(py * width + px) * 4 + c` of an on-canvas pixel lies in `[0, width * height * 4)` |
| `Canvas.PaintedPixel` | src/libass_render.py:106-118 | each of the four bytes of a visible pixel becomes the blend of the sprite colour, at the texel opacity, over its old value |
| `Canvas.ZeroMaskLeavesPixel` | src/libass_render.py:102-104 | a texel whose mask byte is 0 leaves all four bytes of its pixel unchanged |
| `Canvas.OpaqueTexelSetsColour` | src/libass_render.py:106-118 | with a0 = 255 and m = 255 the pixel becomes exactly (r, g, b, 255), whatever was there before |
| `Canvas.MissLeavesPixel` | src/libass_render.py:70-104 | a sprite that is skipped, does not reach the pixel or has a zero mask there leaves the pixel unchanged |
| `Canvas.UntouchedPixelKept` | src/libass_render.py:54-118 | a pixel that every sprite of the list misses keeps its starting bytes through the whole compositing, transparent black on the fresh canvas |
| `Canvas.LastOpaqueSpriteWins` | src/libass_render.py:60-118 | sprites are painted in list order: a fully opaque sprite covering a pixel fully determines it unless a later sprite touches it |
| `WrmsPack.ImageBytes` | src/wrms_libass.cpp:142 | a kept image's byte count `stride * h` is at least its stride |
| `WrmsPack.KeptImages` | src/wrms_libass.cpp:139-140 | the kept list is no longer than the input, and every element passes the filter and is one of the input images |
| `WrmsPack.KeptImagesAreTheFilter` | src/wrms_libass.cpp:116-121 | an image is kept if and only if it is in the list with w > 0, h > 0, stride > 0 and a non-null bitmap |
| `WrmsPack.SpriteOf` | src/wrms_libass.cpp:144-150 | the record written for a kept image copies its position, size, stride and colour, has a positive size and stride, and carries the offset exactly below 2^32 and modulo 2^32 beyond, the `(uint32_t)off` truncation |
| `WrmsPack.KeptHasBytes` | src/wrms_libass.cpp:123-125 | `total_bytes` is zero exactly when no image is kept, so the two early-return tests agree |
| `WrmsPack.PackedMatchesKept` | src/wrms_libass.cpp:139-158 | there is one sprite per kept image, in list order, carrying its position, size, stride and colour unchanged |
| `WrmsPack.PackedBitmapsLength` | src/wrms_libass.cpp:152-160 | the blob is exactly `total_bytes` long |
| `WrmsPack.PackedOffsetsContiguous` | src/wrms_libass.cpp:137-160 | offsets start at 0, each one begins where the previous sprite's `stride * h` bytes end, and the last one ends at `total_bytes` |
| `WrmsPack.PackedEntry` | src/wrms_libass.cpp:142-153 | the j-th sprite's range `[offset, offset + stride * h)` lies inside the blob and holds the j-th kept image's first `stride * h` bitmap bytes |
| `WrmsPack.PackedContents` | src/wrms_libass.cpp:142-153 | every sprite's range lies inside the blob and holds its image's bytes verbatim |
| `WrmsLibass.Engine.constructor` | src/wrms_libass.cpp:9-15 | a new engine has size 0 x 0 and no track |
| `WrmsLibass.Engine.FreeTrack` | src/wrms_libass.cpp:17-22 | the loaded track, if any, is released and forgotten; the size is untouched |
| `WrmsLibass.Frame.constructor` | src/libass_render.py:45 | the caller's frame starts with null pointers and zero lengths |
| `WrmsLibass.SetFrameSize` | src/wrms_libass.cpp:56-67 | 1 for a null handle, 2 for a non-positive size with the engine unchanged, otherwise the size is stored, the track kept and 0 returned |
| `WrmsLibass.SetTrack` | src/wrms_libass.cpp:69-83 | 1 for a null handle, 2 for null or empty text with the engine unchanged; otherwise the old track is released first, the parse result installed, and 3 returned exactly when parsing failed |
| `WrmsLibass.FrameZero` | src/wrms_libass.cpp:85-91 | a non-null frame is left with null pointers and zero lengths |
| `WrmsLibass.CountKept` | src/wrms_libass.cpp:113-121 | the first pass counts exactly the kept images and sums exactly their `stride * h` |
| `WrmsLibass.MemCopy` | src/wrms_libass.cpp:152 | the copy places the source bytes at the offset and leaves the rest of the buffer unchanged |
| `WrmsLibass.PlaceImage` | src/wrms_libass.cpp:140-154 | one turn of the copy loop extends the filled sprite records and blob bytes from the packed layout of the images before it to that of the images up to it |
| `WrmsLibass.CopyKept` | src/wrms_libass.cpp:136-160 | the second pass fills the sprite array and the blob with exactly the packed layout, of lengths n and `total_bytes` |
| `WrmsLibass.PackOutcome` | src/wrms_libass.cpp:108-162 | for a loaded track: return code 0 or 5, 5 exactly when images are kept but allocation fails; arrays present exactly when images are kept and allocation succeeds, with lengths the kept count and `total_bytes`, both positive; otherwise the zeroed frame; lengths always match the arrays |
| `WrmsLibass.RenderA8` | src/wrms_libass.cpp:93-163 | failures are reported in check order: 1 null handle, 2 null frame, 3 negative time (frame untouched), 4 no track (frame zeroed). Otherwise: 0 with a zeroed frame when nothing is kept, 5 with a zeroed frame when allocation fails, else 0 with the packed sprites and blob |
| `WrmsLibass.FreeFrame` | src/wrms_libass.cpp:165-170 | each buffer present is released once and the frame is zeroed; a null frame is a no-op |
| `WrmsLibass.FreeFrameTwice` | src/wrms_libass.cpp:165-170 | a second free releases nothing and leaves the frame zeroed |
| `LibassRender.BlendTexel` | src/libass_render.py:102-118 | writing one texel advances the painting by exactly that pixel's four target bytes |
| `LibassRender.BlendRow` | src/libass_render.py:99-118 | a row completes with all its texels painted, or stops at a read past the slice, which implies the last read is past it too |
| `LibassRender.BlendRows` | src/libass_render.py:98-118 | the row loop succeeds exactly when the sprite passes the in-slice check, and then leaves the canvas equal to the sprite's painting |
| `LibassRender.CompositeSprite` | src/libass_render.py:61-118 | the in-place blend of one sprite fails (IndexError) exactly when some mask read leaves its slice; otherwise the canvas becomes the sprite's painting |
| `LibassRender.FrameOutcome` | src/libass_render.py:49-118 | no image exactly for a non-zero code or an empty frame; IndexError exactly when some sprite fails the in-slice check; otherwise an image of `width * height * 4` bytes; never the NotImplementedError |
| `LibassRender.CompositeFrame` | src/libass_render.py:49-118 | no image for a non-zero code or an empty frame; IndexError exactly when some sprite reads past its slice; otherwise the sprites composited in order over the blank canvas, `width * height * 4` bytes |
| `LibassRender.RenderFrameToRgba` | src/libass_render.py:39-126 | no image for a null handle, a negative time or no track; otherwise the compositing of the packed frame; never IndexError when rows fit their stride and the blob fits 32-bit offsets; the closing free releases both buffers exactly when the native render allocated them |
| `LibassRender.PackedFrameNeverFaults` | src/libass_render.py:99-102 | every sprite of a packed frame passes the in-slice check, given libass's stride invariant and a blob within 32-bit offsets |
| `LibassRender.PackedFrameImage` | src/libass_render.py:46-118 | for a loaded track: no image exactly when nothing is kept or allocation fails, otherwise exactly the packed sprites painted in order over the transparent canvas |
| `LibassRender.FrameOutcomeAsWritten` | src/libass_render.py:49-102 | as written: no image exactly where the intended compositor has none; NotImplementedError exactly when some sprite passes the skip test and keeps a visible pixel; never IndexError; otherwise the blank canvas |
| `LibassRender.NoReadsPaintNothing` | src/libass_render.py:70-95 | sprites that are all skipped or clipped away pass the in-slice check and leave the canvas unchanged |
| `LibassRender.AsWrittenAgreesWithoutReads` | src/libass_render.py:49-102 | on a frame where no sprite reaches a mask read, the code as written and the intended reading give the same result |
| `LibassRender.OpaqueRedDecodes` | src/libass_render.py:30-36 | the colour 0xFF000000 decodes to opaque red |
| `LibassRender.OpaqueRedPixel` | src/libass_render.py:98-118 | a 1 x 1 opaque red sprite with mask byte 255 at the origin of a 1 x 1 canvas passes the in-slice check and paints the pixel (255, 0, 0, 255) |
| `LibassRender.RedPixelAsWritten` | src/libass_render.py:102 | as written, rendering that one-sprite frame raises NotImplementedError |
| `LibassRender.RedPixelIntended` | src/libass_render.py:98-118 | read as bytes, rendering that frame yields the four bytes (255, 0, 0, 255) |
| `LibassRender.MemoryviewReadFault` | src/libass_render.py:102 | on that frame the code as written and the intended reading differ: NotImplementedError against the red pixel |

## Left out

- libass itself (`ass_library_init`, `ass_renderer_init`, `ass_read_memory`, `ass_render_frame`, `ass_free_track`): these are foreign calls. Their results are inputs: `readMemory`, `images`, and the released track returned by `FreeTrack` and `SetTrack`.
- `ass_set_frame_size`, the forwarding of the size to libass's renderer in `wrms_set_frame_size`: a foreign call.
- The engine mutex and its `lock_guard` lines: these matter only for concurrent callers.
- `wrms_create` and `wrms_destroy`: native allocation and release. `Engine.constructor` models only the field initialisers.
- `malloc` and `free`. The two allocations succeed or fail together (`allocOk`). Freeing the one that succeeded when the other fails is not modelled.
- `size_t` overflow of `total_bytes` and `n * sizeof`, and the `(int)ass_len` cast: the model uses unbounded integers on a 64-bit target.
- The ctypes plumbing: struct mirrors, `cast` and `from_address`. The `finally: wrms_free_frame` call is `FreeFrame`, called on every path of `RenderFrameToRgba`, which returns its two release flags.
- The PIL / WebP encoding and the `None` returned as "no image": the result is the RGBA byte sequence, or `NoImage`.
- Negative `width` or `height`: the compositor takes them as natural numbers. The `ValueError` of `bytearray` for a negative size is not modelled.
- `t_ms` beyond the C `int` range: the time is an `int32` from the start.
- src/server.py, src/main.cpp and src/libass_bind.py: network plumbing, a link smoke test and library discovery, with no logic to model.
- `WrmsPack.PackedOffsetsContiguous`: proved only when `total_bytes <= 2^32`. Beyond that, the `(uint32_t)off` truncation (modelled in `SpriteOf`) wraps the offsets.
- `WrmsPack.PackedEntry`: likewise proved only when `total_bytes <= 2^32`.
- `WrmsPack.PackedContents`: likewise proved only when `total_bytes <= 2^32`.
- `LibassRender.PackedFrameNeverFaults`: assumes libass's guarantee that a row is never wider than its stride, which the C code never checks. It also assumes the 32-bit offset bound.
- `LibassRender.PackedFrameImage`: rests on the same two assumptions. It also reads mask bytes as bytes, as the code evidently intends (as with `memoryview(bm).cast('B')`); as written the first mask read raises `NotImplementedError` (see Findings).
- `LibassRender.RenderFrameToRgba`: its no-IndexError guarantee rests on the same two assumptions. It composites with mask bytes read as bytes, as the code evidently intends; the as-written `NotImplementedError` is modelled by `LibassRender.FrameOutcomeAsWritten` only.
- `Canvas.Composited`: its own contract states only the length; what it paints is stated by `Canvas.LastOpaqueSpriteWins`, `Canvas.UntouchedPixelKept` and the per-sprite lemmas.
- `LibassRender.CompositeSprite`: after an `IndexError` the partly painted canvas is not described, because the Python code discards it with the exception.
- `LibassRender.CompositeSprite`: reads mask bytes as bytes, as the code evidently intends; as written the first read raises `NotImplementedError` (see Findings).
- `LibassRender.BlendRow`: reads mask bytes as bytes, as the code evidently intends; as written `sprite[src_row + xx]` raises `NotImplementedError` at its first read.
- `LibassRender.BlendRows`: likewise reads mask bytes as bytes; as written the first row raises `NotImplementedError` at its first read.
- `LibassRender.CompositeFrame`: likewise; as written it raises `NotImplementedError` for the first sprite that passes the skip test and keeps a visible pixel, which `LibassRender.FrameOutcomeAsWritten` states.
- `LibassRender.FrameOutcome`: the intended outcome, with mask bytes read as bytes; the as-written outcome is `LibassRender.FrameOutcomeAsWritten`.
- The `ASS_Image` linked list is a sequence in list order. The frame's buffers are sequences owned by the frame; pointer aliasing is not modelled.

## Findings

| source | as written | input that shows it | evidently intended | confidence | as-written member | corrected member |
|---|---|---|---|---|---|---|
| src/libass_render.py:102 | `bm_mv` (line 58) is a memoryview over a ctypes `c_uint8` array, whose buffer format is `<B`. Slicing it keeps that format. CPython's memoryview unpacks an item only for a native single-character format, so `m = sprite[src_row + xx]` raises `NotImplementedError` at the first mask read of the first sprite that passes the skip test and keeps a visible pixel | a 1 x 1 canvas; one sprite at (0, 0), 1 x 1, stride 1, colour 0xFF000000, offset 0; blob `[255]` | read the mask byte as an integer (e.g. `memoryview(bm).cast('B')`), giving the red pixel (255, 0, 0, 255) | high, from CPython's memoryview semantics; not executed | `LibassRender.FrameOutcomeAsWritten`, `LibassRender.MemoryviewReadFault` | `LibassRender.FrameOutcome`, `LibassRender.CompositeFrame`, `LibassRender.PackedFrameImage` |
