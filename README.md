# libsbmr deferred bitmap renderer, modelled in Dafny

libsbmr's renderer works in two phases during a frame:

- **Recording.** Calls to `Clear`, `DrawRect` and `DrawGrad` append tagged
  commands to a fixed byte arena, the command queue.
- **Resolving.** `EndDrawing` walks the whole queue again for every pixel of
  a `BPP`-bytes-per-pixel surface, in row-major order. The last command that
  applies to a pixel decides its colour. Then the queue is emptied.

This project models that core, together with the value types it depends on
(`Color4`, `Rect`, the command discriminants) and the C-string length loop.

Modules, one file each:

- `Types` (`types.dfy`): the fixed-width integers (`U8`, `U16`, `U32`, `U64`).
  It also writes out the C++ narrowing conversions (`ToU8`, `ToU16`) that the
  source performs implicitly.
- `Wrappers` (`wrappers.dfy`): `Option`.
- `Coloring` (`coloring.dfy`): `Color4`, stored as B, G, R, A. Also its
  `(r, g, b, a)` constructor `Rgba`, the wrapping `operator+` (`Plus`) and the
  colour constants.
- `Geom` (`geom.dfy`): `Rect`, `IsInside` and `IsOverlapping`, as written.
  The repaired overlap test `Intersects` is in the same module.
- `Commands` (`commands.dfy`): the `RenderCommandType` discriminants and
  `RenderCommand`. `RenderCommand` is the tag-plus-payload record, modelled as
  a tagged union whose constructor fixes the tag. This module also holds the
  encoded sizes and `BPP`.
- `Codec` (`codec.dfy`): the byte layout of the queue.
  - A command is its 4-byte tag followed by its payload, packed without
    padding and little-endian.
  - `DecodeAt` is one step of the rasterizer's walk over the arena.
  - `DecodeAll` is the walk from offset 0.
  - Decoding is proved to invert encoding.
- `Raster` (`raster.dfy`): the specification of the rasterizer.
  - `Apply` is one case of the switch.
  - `PixelAfter` replays a command sequence over a pixel's prior colour.
  - A declarative reading (`LastApplicable`, `Paint`) is proved equal to it:
    last writer wins.
- `BMR` (`bmr.dfy`): the renderer.
  - The global `Inst` becomes class `Renderer`. Its fields are the arena
    (`array<U8>`), the `End` cursor, `CommandCount`, the clear colour and the
    surface (`array?<U8>` with `Width`, `Height`), plus the window handle.
  - A ghost field `Commands` holds what has been recorded.
  - The invariant `Valid()` says that the arena's first `End` bytes are
    `EncodeAll(Commands)`.
  - The triple loop of `EndDrawing` is imperative: `Rasterize` (rows),
    `RasterizeRow` (pixels), `ShadePixel` (commands), `ReplayCommand` (the
    switch) and `StorePixel` (the 4-byte store). `StorePixel` is proved
    against the splice of `EncodeColor` into the buffer, `ReplayCommand`
    against one `Apply` step, and `ShadePixel`, `RasterizeRow` and
    `Rasterize` against `PixelAt(buffer, ...) == PixelAfter(commands, ...)`.
- `Strings` (`strings.dfy`): `CStr_GetLength` as a `while` loop, proved to
  return the index of the first `'\0'`.

Integer widths are modelled exactly where the source narrows:

- `Color4`'s constructor takes `U8` parameters, so `operator+` and the
  gradient colour reduce modulo 256.
- `Rect`'s fields are `U16`, so `DrawRect(U32, ...)` and the rasterizer's
  `IsInside(x, y)` call reduce modulo 65536.
- `IsInside` itself computes its sums in `int`, so it does not wrap.

## Model

| member | source | states |
|---|---|---|
| `Coloring.Rgba` | src/Coloring.hpp:17-25 | `Color4(r, g, b, a)` stores each argument in its own channel; the datatype's field order is the in-memory order B, G, R, A |
| `Coloring.Color4.Plus` | src/Coloring.hpp:27-33 | the definition of `operator+`: each channel sum narrowed into the U8 constructor parameter; its meaning is proved by `PlusIsAdditionModulo256`, `PlusCommutes`, `BlackIsIdentity` and `PlusHasInverse` |
| `Coloring.NamedColorChannels` | src/Coloring.hpp:39-43 | the five named colours: white is 255 on every channel, red, green and blue are 255 on their own channel only, black is 0; yellow is proved by `YellowIsGreenPlusRed` |
| `Coloring.PlusIsAdditionModulo256` | src/Coloring.hpp:27-33 | every channel of `c + d` is the sum of the channels modulo 256, and a sum above 255 loses exactly 256 |
| `Coloring.PlusCommutes` | src/Coloring.hpp:27-33 | `operator+` is commutative |
| `Coloring.BlackIsIdentity` | src/Coloring.hpp:23-43 | `COLOR_BLACK` is a two-sided identity of `operator+` and equals the default-constructed `Color4()` |
| `Coloring.PlusHasInverse` | src/Coloring.hpp:27-33 | every colour has an additive inverse, so `operator+` wraps and never saturates |
| `Coloring.YellowIsGreenPlusRed` | src/Coloring.hpp:39-45 | `COLOR_YELLOW == Color4(255, 255, 0, 0)` |
| `Coloring.WhitePlusOneWraps` | src/Coloring.hpp:27-39 | white plus one on each channel wraps to black |
| `Codec.EncodeColor` | src/Coloring.hpp:17-21 | a stored `Color4` occupies `COLOR4_SIZE` (4) bytes, in field order B, G, R, A |
| `Codec.ColorIsU32Wide` | src/Coloring.hpp:37 | a stored `Color4` is exactly as wide as a stored U32 |
| `Geom.Rect.IsInside` | src/Geom.hpp:27-30 | the definition of the containment test, far edges inclusive and sums in `int`; its meaning is proved by `IsInsideIsCovers`, `FarEdgeInclusive` and `NoWrapInIsInside` |
| `Geom.IsInsideIsCovers` | src/Geom.hpp:27-30 | for every U16 point, `IsInside` holds iff `X <= x <= X + Width` and `Y <= y <= Y + Height` over the integers (no wrap-around) |
| `Geom.FarEdgeInclusive` | src/Geom.hpp:27-30 | the far corner is inside whenever a U16 can hold it, and the point one past either far edge is not |
| `Geom.TenByTenExample` | src/Geom.hpp:27-30 | `Rect(0,0,10,10).IsInside(10,10)` and not `IsInside(11,11)` |
| `Geom.DefaultRectIsOrigin` | src/Geom.hpp:23-30 | the default `Rect()` contains a point iff the point is (0, 0) |
| `Geom.NoWrapInIsInside` | src/Geom.hpp:27-30 | a rectangle at the top of the U16 range contains its corner and does not reach (0, 0) |
| `Geom.Rect.IsOverlapping` | src/Geom.hpp:32-38 | the definition of the overlap test as written: four corners of the argument, each narrowed to U16; it is sound without wrap by `CornerTestSoundWithoutWrap` and defective by `IsOverlappingMissesEveryContainment`, `IsOverlappingMissesStraddle` and `IsOverlappingFooledByWrap` |
| `Geom.CornerTestSoundWithoutWrap` | src/Geom.hpp:32-38 | when no corner of the argument wraps past 65535, a reported overlap is a real one (the regions share a point) |
| `Geom.OverlapsItself` | src/Geom.hpp:32-38 | every rectangle overlaps itself |
| `Geom.IsOverlappingMissesContainment` | src/Geom.hpp:32-38 | `Rect(10,10,5,5)` does not overlap `Rect(0,0,100,100)`, although both contain (12, 12) |
| `Geom.IsOverlappingMissesEveryContainment` | src/Geom.hpp:32-38 | whenever `a` lies strictly inside `r` and no corner of `r` wraps, `a.IsOverlapping(r)` is false although the regions intersect |
| `Geom.IsOverlappingMissesStraddle` | src/Geom.hpp:32-38 | `Rect(5,15,20,3)` crosses `Rect(10,10,10,10)` with no corner inside it, so the test reports no overlap although the regions intersect |
| `Geom.IsOverlappingFooledByWrap` | src/Geom.hpp:32-38 | `Rect()` overlaps `Rect(65535,0,1,0)` through a far corner that wraps to 0, although they share no point |
| `Geom.NegativeOriginExample` | src/Geom.hpp:32-38 | a rectangle built with origin -50 narrows to 65486 and does not overlap `Rect(0,0,100,100)` |
| `Geom.IntersectsIffSharedPoint` | src/Geom.hpp:32-38 | the repaired test holds iff the two closed regions share an integer point |
| `Geom.IntersectsRepairsOverlap` | src/Geom.hpp:32-38 | the repaired test is symmetric and reflexive, and accepts the containment example the original misses |
| `Geom.IntersectsSeesContainment` | src/Geom.hpp:32-38 | the repaired test holds whenever one rectangle contains the other, in either argument order |
| `Commands.RenderCommandType.Value` | src/BMR.hpp:25-32 | the definition of the discriminants 0, 1, 10, 11 and 20; they are distinct and fit a U32 by `DiscriminantsAreExact` |
| `Commands.TypeOfValue` | src/BMR.hpp:25-32 | a stored value names an enumerator exactly when it is 0, 1, 10, 11 or 20, and then the one with that discriminant |
| `Commands.DiscriminantsAreExact` | src/BMR.hpp:25-32 | discriminants are distinct, fit a U32 and are recovered from their value |
| `Commands.CommandSizes` | src/BMR.hpp:35-45 | a CLEAR takes 8 bytes, a RECT 16, a GRADIENT 12; NOP and LINE only their 4-byte tag |
| `Codec.Encode` | src/BMR.hpp:35-45 | `RenderCommand(type, payload)` stores `sizeof` tag plus payload bytes |
| `Codec.DecodeAt` | src/BMR.cpp:126-158 | one step of the walk reads a tag and the payload its case reads, and moves past exactly that command's size |
| `Codec.DecodeAll` | src/BMR.cpp:123-159 | walking n commands yields n commands and stays within the arena |
| `Codec.ValueRoundTrips` | src/BMR.cpp:133-150 | `Color4`, `Rect` and `Vec2u` are read back as they were stored |
| `Codec.U32RoundTrip` | src/BMR.cpp:126-127 | the 4-byte tag reads back as the value stored |
| `Codec.DecodeAtEncoded` | src/BMR.cpp:126-158 | wherever a pushed command's bytes lie, one step there returns that command and moves exactly past it |
| `Codec.CommandRoundTrip` | src/BMR.cpp:248-255 | one pushed command decodes back from its own bytes |
| `Codec.EncodeAllPrefix` | src/BMR.cpp:251-252 | the bytes of earlier pushes are a prefix of the bytes of later ones |
| `Codec.EncodedAt` | src/BMR.cpp:123-129 | the k-th command starts at the offset the walk reaches after k commands |
| `Codec.EncodeAllSnoc` | src/BMR.cpp:248-255 | recording one more command appends exactly its bytes |
| `Codec.FieldsDecode` | src/BMR.cpp:126-158 | where a command's tag and payload fields can be read, one step of the walk returns that command and moves exactly past it |
| `Codec.EncodedHasFields` | src/BMR.cpp:126-150 | a pushed command's bytes hold its tag and the payload fields its case reads |
| `Codec.SpanIsLength` | src/BMR.cpp:251-252 | the queue's byte length is the sum of its commands' sizes |
| `Codec.EncodedIsStored` | src/BMR.cpp:248-255 | the queue's bytes hold each command right after those recorded before it |
| `Codec.StoredHasFields` | src/BMR.cpp:123-150 | each stored command's fields are where the walk reads them |
| `Codec.FieldsDecodeInOrder` | src/BMR.cpp:123-158 | each command decodes at the offset the walk reaches after the commands before it |
| `Codec.DecodeAllSnoc` | src/BMR.cpp:123-159 | one more decoding step after a decoded run extends the run by that command |
| `Codec.DecodeInOrder` | src/BMR.cpp:123-159 | commands that decode in order are recovered by walking as many of them, which stops after their last byte |
| `Codec.DecodeAllInvertsEncodeAll` | src/BMR.cpp:123-159 | decoding `CommandCount` commands from offset 0 recovers exactly the pushed sequence and ends at `End` |
| `Raster.GradientColor` | src/BMR.cpp:152 | the definition of a gradient pixel; its channels and periodicity are proved by `GradientChannels` |
| `Raster.Apply` | src/BMR.cpp:131-157 | the definition of one case of the switch on a pixel; what it keeps and writes is proved by `ApplyWritesPaint`, and the replay loop matches it by `BMR.ReplayCommand` |
| `Raster.PixelAfter` | src/BMR.cpp:125-159 | the per-pixel replay as a fold of `Apply`; last writer wins by `PixelAfterIsLastWriter`; the loop matches it by `BMR.ShadePixel` |
| `Raster.LastApplicable` | src/BMR.cpp:125-158 | the index of the last command that writes the pixel, with none after it; none when no command does |
| `Raster.ApplyWritesPaint` | src/BMR.cpp:131-158 | a case of the switch keeps the pixel exactly when the command does not apply (a RECT the pixel is outside of), otherwise writes its colour |
| `Raster.PixelAfterIsLastWriter` | src/BMR.cpp:125-159 | replaying the queue leaves the colour of the last applicable command, or the prior colour if none applies |
| `Raster.NothingApplicableKeepsPrior` | src/BMR.cpp:125-159 | with no applicable command (an empty queue in particular) the pixel keeps its prior colour |
| `Raster.LastApplicableDecides` | src/BMR.cpp:125-159 | the last applicable command decides the pixel whatever precedes it |
| `Raster.PixelAfterAppend` | src/BMR.cpp:125-159 | replaying `a + b` is replaying `b` over what `a` left |
| `Raster.ClearThenRect` | src/BMR.cpp:131-147 | `[CLEAR(c), RECT(r, k)]` gives `k` exactly inside `r` (U16-narrowed pixel) and `c` elsewhere |
| `Raster.RectThenClear` | src/BMR.cpp:131-147 | `[RECT(r, k), CLEAR(c)]` gives `c` everywhere |
| `Raster.GradientChannels` | src/BMR.cpp:148-153 | a gradient writes red `(x + X) mod 256`, green `(y + Y) mod 256`, blue and alpha 0; it repeats every 256 pixels and shifting the offset shifts the image |
| `Raster.GradientWrapExample` | src/BMR.cpp:148-153 | at (300, 10) with offset (0, 0) the gradient is `Color4(44, 10, 0, 0)` |
| `Raster.UnknownTagWritesClearColor` | src/BMR.cpp:154-157 | a tag with no case (NOP, LINE or unknown) consumes only its 4 bytes and writes the clear colour |
| `BMR.PixelLayout` | src/BMR.cpp:116-163 | pixel (x, y) is Color4 cell `y * Width + x`; consecutive rows are `Width * BPP` bytes apart |
| `BMR.PixelInBounds` | src/BMR.cpp:116-163 | every pixel of the surface lies inside its `w * h * BPP` bytes |
| `BMR.PixelOrder` | src/BMR.cpp:119-161 | a pixel earlier in row-major order ends before a later one starts |
| `BMR.StorePixel` | src/BMR.cpp:135 | `*pixel = color` replaces exactly the pixel's 4 bytes by B, G, R, A |
| `BMR.ReplayCommand` | src/BMR.cpp:126-158 | one pass of the switch moves the offset past the command and sets the pixel to `Apply` of it, touching no other byte |
| `BMR.ShadePixel` | src/BMR.cpp:123-159 | the command loop sets the pixel to `PixelAfter(commands, ...)` of its prior colour and touches no other byte |
| `BMR.RasterizeRow` | src/BMR.cpp:120-161 | the x loop shades every pixel of row y and leaves earlier rows and later bytes alone |
| `BMR.Rasterize` | src/BMR.cpp:116-164 | the y loop sets every pixel to `PixelAfter(commands, x, y, clear, prior colour)` |
| `BMR.Renderer.Init` | src/BMR.cpp:72-87 | empty queue in a fresh 1024-byte arena, black clear colour, `BPP` 4, zero offsets, no surface and 0 by 0 |
| `BMR.Renderer.QueueDecodes` | src/BMR.cpp:123-159 | decoding the arena for `CommandCount` steps gives back exactly the recorded commands and stops at `End` |
| `BMR.Renderer.PushRenderCommand` | src/BMR.cpp:248-255 | writes tag then payload at `End`, advances `End` by the command's size, counts it, keeps every other arena byte, keeps `Valid()` |
| `BMR.Renderer.SetClearColor` | src/BMR.cpp:257-261 | changes only the clear colour; recorded commands and arena bytes stay |
| `BMR.Renderer.Clear` | src/BMR.cpp:268-275 | records a CLEAR carrying the clear colour current at the call |
| `BMR.Renderer.DrawRect` | src/BMR.cpp:277-284 | records a RECT with the given rectangle and colour |
| `BMR.Renderer.DrawRectFromCoords` | src/BMR.cpp:286-295 | records a RECT whose U32 coordinates are narrowed to U16 |
| `BMR.Renderer.DrawGradFromCoords` | src/BMR.cpp:297-304 | records a GRADIENT with offset `(xOffset, yOffset)` |
| `BMR.Renderer.DrawGrad` | src/BMR.cpp:306-313 | records a GRADIENT with the given offset |
| `BMR.Renderer.BeginDrawing` | src/BMR.cpp:107-111 | remembers the window |
| `BMR.Renderer.EndDrawing` | src/BMR.cpp:113-182 | every pixel becomes `PixelAfter` of the recorded queue over its old colour; the queue is then empty; clear colour and dimensions unchanged |
| `BMR.Renderer.Resize` | src/BMR.cpp:205-244 | width and height become w and h; the surface is a fresh zeroed buffer of `w * h * BPP` bytes |
| `BMR.FrameScenario` | src/BMR.cpp:268-284 | white CLEAR then black RECT(10,10,50,50) on a 100x100 surface: (30, 30) ends black and (5, 5) white |
| `Strings.FirstNul` | src/String.cpp:14-21 | the index of a terminator with no terminator before it |
| `Strings.CStrGetLength` | src/String.cpp:14-21 | the loop returns `FirstNul(s)`: `s[size] == '\0'` and no `'\0'` before it |
| `Strings.FirstNulUnique` | src/String.cpp:16-20 | any terminator with only non-terminators before it is the length |
| `Strings.LengthOfTerminated` | src/String.cpp:16-20 | writing `t` (NUL-free) then `'\0'` gives a string of length `|t|`, whatever follows |
| `Strings.EmptyStringHasLengthZero` | src/String.cpp:16-20 | the empty string has length 0 |
| `Strings.LengthIgnoresTail` | src/String.cpp:17-19 | bytes after the first terminator do not change the length |

## Left out

- Presentation is not modelled: `_UpdateWindow` / `StretchDIBits`, the `ScopedDC` block at the end of `EndDrawing`, and `Update`. These are Win32 calls. The window handle is an opaque `nat`.
- `DeInit` and every `VirtualAlloc`/`VirtualFree` call are not modelled. Memory comes from `new`, zero-initialized like a committed page, and is never freed or lost. Allocation failure is not modelled: `Init` ignores it for the arena (a failed `VirtualAlloc` there leaves a null queue that the first push writes through), and `Resize` only logs it for the surface.
- The `BITMAPINFO` header filled in by `Resize` is not modelled. It is a Win32 descriptor with no logic.
- BMR.Renderer.Resize: requires `0 <= w, h` and `w * h * BPP <= 2^31 - 1`. The source stores negative `S32` sizes into `U64` fields and can overflow the product; the model does not follow it there.
- BMR.Renderer.PushRenderCommand: requires `End + size <= 1024`. The source writes past the arena without any check. A capacity-checked design would report a queue overflow instead; the code has no such check, and the model follows the code by making the bound a precondition. The recorders (`Clear`, `DrawRect`, `DrawGrad`) inherit the precondition.
- `DrawLine` is declared but never defined, so no recorder produces LINE. The model still lets `PushRenderCommand` accept NOP and LINE commands (tag only), matching the rasterizer's default case.
- The `XOffset`/`YOffset` fields are set by `Init` and read only by the presentation call, so nothing is proved about them beyond their initial value.
- `Vec2u` is used by `BMR.hpp` but defined nowhere in the source: `BMR.hpp` includes `Lin.hpp` for vector types, and `Lin.hpp` defines only `Vec3i`. It is modelled as two `U32` fields, 8 bytes.
- Associativity of `operator+` is not proved. Commutativity, identity, inverses and the modulo-256 channel sums are.
- Concurrency: the renderer is single-threaded, so none is modelled.
- `StringView.hpp`, the OpenGL sample and the Win32 window procedure are not part of this model.

## Findings

| source | as written | input that shows it | evidently intended | confidence | as-written member | corrected member |
|---|---|---|---|---|---|---|
| src/Geom.hpp:32-38 | `IsOverlapping` probes only the four corners of the argument, each narrowed to U16 | `Rect(10,10,5,5).IsOverlapping(Rect(0,0,100,100))` is false although the rectangles share (12, 12), and a straddling `Rect(5,15,20,3)` is missed by `Rect(10,10,10,10)`; `Rect().IsOverlapping(Rect(65535,0,1,0))` is true although they share no point | true exactly when the two closed rectangles share a point | not executed | `Geom.IsOverlappingMissesContainment` | `Geom.IntersectsIffSharedPoint` |
