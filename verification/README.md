# Native image processing: a Dafny model of the pixel engine and the edit screen

This project models the two computing parts of the Android app
`nativeimageprocessing`:

- **The native pixel engine** (`native-lib.cpp`). It works on packed ARGB
  `int` buffers of `width * height` pixels. Every filter unpacks the alpha,
  red, green and blue bytes with shifts and masks, computes new colour
  channels, keeps the alpha byte and packs the result into a fresh buffer.
  - Grayscale takes the integer mean of the three colour channels.
  - Invert replaces each colour channel `c` by `255 - c`.
  - Sepia applies a fixed 3x3 colour matrix, capped at 255.
  - Brightness scales each colour channel by `value / 100`, capped at 255.
  - Contrast clamps its parameter into [-255, 255], stretches each channel
    around 128 and saturates into [0, 255].
  - Blur is a box blur. It clamps its radius into [1, 25] and averages each
    channel over the `(2r+1) x (2r+1)` window around the pixel. Window
    coordinates outside the image are clamped to the nearest edge.
- **The edit screen** (`EditActivity.kt`).
  - It holds a committed image (`currentBitmap`) and a preview
    (`tempBitmap`).
  - `applyFilter` dispatches a filter id:
    - grayscale, invert, sepia, edge and the three rotations run a native
      filter on the committed image and show the result as a preview;
    - brightness, contrast and blur hand the committed image to another
      screen;
    - every other id, including the offered "crop", shows a "not
      implemented" message.
  - Save commits the preview and Cancel goes back to the committed image.
  - An image handed back by another screen replaces the committed image.

Files:

- `pixels.dfy` (module `Pixels`): the pixel word, the four channels,
  unpacking, packing, and the shift-and-or packing with 32-bit wrap-around.
- `point_filters.dfy` (module `PointFilters`): grayscale, invert, sepia,
  brightness and contrast.
- `blur.dfy` (module `Blur`): two parts.
  - The functional box blur `Blur`, defined through per-window sums.
  - `BlurPixels`, which follows the C++ loop nest and is proved equal to
    `Blur`.
- `edit_session.dfy` (module `EditSession`): several parts.
  - The filter ids and their dispatch.
  - The native calls the screen makes.
  - The preview/commit session.
  - The screen's events (`Step`, `Run`) and an invariant over any sequence
    of them.

How values are represented:

- A pixel is the 32-bit pattern of a Java `int`, read as an unsigned number
  in [0, 2^32).
  - `(x >> k) & 0xff` is `(x / 2^k) % 256`.
  - `x << k` is a multiplication by `2^k` reduced modulo 2^32.
  - `|` is a bitwise or defined bit by bit.
- The native filters take `width`, `height` and a buffer holding at least
  `width * height` pixels. The product must fit in a 32-bit `int`.
- Where the C++ computes in floating point (the sepia products, the
  brightness factor, the contrast stretch), the model keeps every integer
  step around that computation: the casts, the caps and the parameter
  clamp.
  - The floating-point expression itself is a function parameter.
  - `Exact*` functions supply it with exact rational arithmetic and C++
    truncation toward zero. The reference lemmas use them.

## Behaviour worth knowing

- **Grayscale** is the plain mean `(r + g + b) / 3`, not a luminosity
  weighting.
- **Brightness** scales each colour channel by `value / 100` and caps it
  at 255. The value itself is not clamped.
  - A negative value would spill a negative channel's sign bits into the
    alpha byte; see `PointFilters.NegativeBrightnessCorruptsAlpha`.
  - The brightness slider never produces a negative value.
- **Blur radius 0** is clamped up to 1, so it still blurs; see
  `Blur.BlurRadiusZeroIsNotIdentity`.
- **Crop** is offered in the menu, but choosing it only shows "not
  implemented".

## Model

| member | source | states |
|---|---|---|
| Pixels.PackUnpack | app/src/main/cpp/native-lib.cpp:19-26 | Unpacking a pixel into its four bytes and packing them again gives back the original 32-bit word |
| Pixels.Unpack | app/src/main/cpp/native-lib.cpp:19-22 | Channel extraction `(color >> k) & 0xff`. No contract of its own; its meaning is the round trips `Pixels.PackUnpack` and `Pixels.UnpackPack` |
| Pixels.UnpackPack | app/src/main/cpp/native-lib.cpp:50-59 | Four channels in [0, 255], packed and then unpacked, come back unchanged |
| Pixels.PixelExtensionality | app/src/main/cpp/native-lib.cpp:19-22 | Two pixels are equal exactly when their alpha, red, green and blue bytes are all equal |
| Pixels.PackWordOfChannels | app/src/main/cpp/native-lib.cpp:26 | For channels in [0, 255], the shift-and-or packing equals `a*2^24 + r*2^16 + g*2^8 + b`, because the four fields do not overlap |
| Pixels.PackWord | app/src/main/cpp/native-lib.cpp:26 | The shift-and-or packing with 32-bit wrap. No contract beyond its 32-bit result type; `Pixels.PackWordOfChannels` states what it computes for in-range channels |
| PointFilters.Grayscale | app/src/main/cpp/native-lib.cpp:16-27 | The result has `width*height` pixels. Each output pixel keeps the input alpha and has r = g = b = the floor of (r+g+b)/3 of the input pixel at that index |
| PointFilters.GrayPixelFixesGray | app/src/main/cpp/native-lib.cpp:24-26 | A pixel whose three colour channels are already equal is returned unchanged |
| PointFilters.GrayscaleIdempotent | app/src/main/cpp/native-lib.cpp:16-27 | Applying grayscale to a grayscale result changes nothing |
| PointFilters.GrayscalePointwise | app/src/main/cpp/native-lib.cpp:16-27 | Output pixel i depends on input pixel i alone: equal input pixels give equal output pixels, whatever the rest of either buffer holds |
| PointFilters.InvertPixelChannels | app/src/main/cpp/native-lib.cpp:55-59 | An inverted pixel keeps its alpha and has each colour channel c replaced by 255 - c |
| PointFilters.Invert | app/src/main/cpp/native-lib.cpp:47-60 | The result has `width*height` pixels. Each keeps the input alpha, and each colour channel adds up to 255 with the input channel |
| PointFilters.InvertPixelInvolution | app/src/main/cpp/native-lib.cpp:55-59 | Inverting one pixel twice gives the pixel back |
| PointFilters.InvertInvolution | app/src/main/cpp/native-lib.cpp:47-60 | Inverting a buffer twice gives back exactly the `width*height` pixels the filter read |
| PointFilters.InvertPointwise | app/src/main/cpp/native-lib.cpp:47-60 | Output pixel i of invert depends on input pixel i alone |
| PointFilters.InvertExample | app/src/main/cpp/native-lib.cpp:50-59 | The pixel 0xFF0AC800 inverts to 0xFFF537FF |
| PointFilters.Sepia | app/src/main/cpp/native-lib.cpp:79-97 | The result has `width*height` pixels. For any tone evaluator, each pixel keeps its alpha and each colour channel is the tone value, or 255 when the tone value exceeds 255 |
| PointFilters.SepiaOfWhite | app/src/main/cpp/native-lib.cpp:87-96 | With exact arithmetic, opaque white becomes 0xFFFFFFEE: red and green saturate, and blue is the truncated 238.935 |
| PointFilters.ExactSepiaTonesOrdered | app/src/main/cpp/native-lib.cpp:87-89 | With exact arithmetic, the truncated red tone is at least the green tone, which is at least the blue tone, for every input |
| PointFilters.ExactSepiaWarm | app/src/main/cpp/native-lib.cpp:87-96 | With exact arithmetic, every sepia output pixel has red at least green and green at least blue |
| PointFilters.Brightness | app/src/main/cpp/native-lib.cpp:118-133 | The result has `width*height` pixels. Where the scaled channels are non-negative, each pixel keeps its alpha and each colour channel is the scaled value, or 255 when the scaled value exceeds 255 |
| PointFilters.ExactScaleNonNegative | app/src/main/cpp/native-lib.cpp:118-130 | For a brightness value of 0 or more, the truncated scaled channel is never negative |
| PointFilters.ExactBrightnessKeepsAlpha | app/src/main/cpp/native-lib.cpp:118-132 | With exact arithmetic and a non-negative value (the slider's range), every output pixel keeps the input alpha |
| PointFilters.ExactBrightnessNeutral | app/src/main/cpp/native-lib.cpp:118-132 | With exact arithmetic, value 100 returns the input pixels unchanged |
| PointFilters.NegativeBrightnessCorruptsAlpha | app/src/main/cpp/native-lib.cpp:128-132 | With value -100, a fully transparent pixel with red 1 comes out fully opaque: the negative red sets the alpha bits |
| PointFilters.ClampContrast | app/src/main/cpp/native-lib.cpp:154-157 | The contrast parameter is clamped into [-255, 255]: kept when inside, the nearer end when outside |
| PointFilters.Saturate | app/src/main/cpp/native-lib.cpp:173-176 | `min(255, max(0, x))` is x inside [0, 255], 0 below and 255 above |
| PointFilters.Contrast | app/src/main/cpp/native-lib.cpp:150-179 | The result has `width*height` pixels. Each pixel keeps its alpha, and each colour channel is the saturated stretch of the input channel under the clamped parameter |
| PointFilters.ContrastParameterClamped | app/src/main/cpp/native-lib.cpp:155-157 | Every parameter at or below -255 gives the same image as -255; every parameter at or above 255 gives the same image as 255 |
| PointFilters.ContrastFactorMonotonic | app/src/main/cpp/native-lib.cpp:159 | The contrast factor never decreases as the clamped parameter grows |
| PointFilters.ExactContrastNeutral | app/src/main/cpp/native-lib.cpp:159-178 | With exact arithmetic, parameter 0 returns the input pixels unchanged |
| PointFilters.ExactContrastMinimum | app/src/main/cpp/native-lib.cpp:159-176 | With exact arithmetic, every parameter at or below -255 turns every colour channel into 128 |
| PointFilters.ExactContrastMaximum | app/src/main/cpp/native-lib.cpp:169-176 | With exact arithmetic at parameter 255, a channel below 128 goes to 0, 128 stays 128, and one above 128 goes to 255 |
| Blur.ClampRadius | app/src/main/cpp/native-lib.cpp:196-197 | The radius used lies in [1, 25]: a radius below 1 becomes 1, one above 25 becomes 25, and one already inside is kept |
| Blur.ClampIndex | app/src/main/cpp/native-lib.cpp:214-216 | Clamp-to-edge: a coordinate below 0 reads index 0, one above hi reads hi, and one already inside is kept |
| Blur.SampleInBounds | app/src/main/cpp/native-lib.cpp:213-219 | Every index `py*width+px` a window reads lies in [0, width*height). A tap that falls inside the image reads exactly the pixel at its offset |
| Blur.WindowCountIsSquare | app/src/main/cpp/native-lib.cpp:211-225 | A window of radius r counts exactly (2r+1)^2 taps |
| Blur.TotalBound | app/src/main/cpp/native-lib.cpp:211-225 | A window's channel sum lies between 0 and 255 times the tap count, so `sum / count` is a channel value |
| Blur.BlurPixelMeaning | app/src/main/cpp/native-lib.cpp:227-233 | Output pixel (x, y) keeps the alpha of input pixel (x, y). Each colour channel c satisfies `count*c <= sum < count*(c+1)` for its window sum: the mean rounded down |
| Blur.BlurChannelMeaning | app/src/main/cpp/native-lib.cpp:229-231 | Each colour channel of an output pixel is the floor of the mean of that channel over its window |
| Blur.BlurRadiusClamped | app/src/main/cpp/native-lib.cpp:196-197 | Every radius at or below 1 blurs like radius 1; every radius at or above 25 blurs like radius 25 |
| Blur.BlurUniformFixedPoint | app/src/main/cpp/native-lib.cpp:209-233 | An image whose red, green and blue are the same at every pixel comes out of the blur unchanged, for any radius and any alphas |
| Blur.TotalCoversTap | app/src/main/cpp/native-lib.cpp:213-224 | A window's channel sum is at least the channel value of each of its taps |
| Blur.BlurRadiusZeroIsNotIdentity | app/src/main/cpp/native-lib.cpp:196 | With radius 0 or below, a pixel with no red whose right neighbour is fully red gets at least 28 red: radius 0 still blurs |
| Blur.WindowTotals | app/src/main/cpp/native-lib.cpp:211-225 | The `ky`/`kx` loops compute the three window channel sums and the tap count of the functional definition |
| Blur.BlurWord | app/src/main/cpp/native-lib.cpp:227-233 | Output pixel (x, y) is the shift-and-or of the source alpha and the three window sums divided by the tap count |
| Blur.BlurOutputPixel | app/src/main/cpp/native-lib.cpp:211-233 | The body of the `y`/`x` loops produces exactly output pixel (x, y) of the functional blur |
| Blur.BlurPixels | app/src/main/cpp/native-lib.cpp:196-235 | The loop nest, in row-major order, produces exactly the functional blur of the clamped radius |
| Blur.Blur | app/src/main/cpp/native-lib.cpp:188-242 | The native blur as a function of the clamped radius. Its own contract states only the length `w*h`; `Blur.BlurPixelMeaning` and `Blur.BlurWord` state each output pixel, and `Blur.BlurPixels` proves the loop nest computes it |
| EditSession.MenuDispatch | app/src/main/java/com/example/nativeimageprocessing/activities/EditActivity.kt:56-68 | Every id in the filter menu reaches a filter or another screen, except crop, which falls to "not implemented" |
| EditSession.Dispatch | app/src/main/java/com/example/nativeimageprocessing/activities/EditActivity.kt:124-191 | Only a menu id other than crop selects a filter or a screen, and a rotation is always by 90, 180 or 270 degrees. Exactly the edge id calls `edgeDetect`, and exactly rotate90, rotate180 and rotate270 call `rotate` with 90, 180 and 270; `EditSession.MenuDispatch` and `EditSession.UnknownIdNotImplemented` state the converse for the menu and for unknown ids |
| EditSession.UnknownIdNotImplemented | app/src/main/java/com/example/nativeimageprocessing/activities/EditActivity.kt:184-190 | An id that is not in the menu falls to "not implemented" |
| EditSession.CallNative | app/src/main/java/com/example/nativeimageprocessing/activities/EditActivity.kt:125-141 | The grayscale, invert and sepia calls return exactly `width*height` pixels |
| EditSession.SetPixels | app/src/main/java/com/example/nativeimageprocessing/activities/EditActivity.kt:196-197 | A width or height below 1 fails as `createBitmap` does; otherwise the preview bitmap has the requested dimensions and the first w*h returned pixels, and it fails exactly when fewer are returned |
| EditSession.Initial | app/src/main/java/com/example/nativeimageprocessing/activities/EditActivity.kt:78-80 | The screen starts consistent, showing the decoded image as the committed image, with no preview (the hidden buttons come from the layout, see Left out) |
| EditSession.ApplyFilter | app/src/main/java/com/example/nativeimageprocessing/activities/EditActivity.kt:114-207 | A filter never changes the committed image. Only a preview changes the session, and it shows a valid preview with the buttons visible. Only edge and rotate can fail |
| EditSession.Save | app/src/main/java/com/example/nativeimageprocessing/activities/EditActivity.kt:90-95 | Save makes the preview the committed, displayed image, recycles it and hides the buttons. It fails exactly when there is no preview |
| EditSession.Cancel | app/src/main/java/com/example/nativeimageprocessing/activities/EditActivity.kt:97-100 | Cancel keeps the committed image, displays it and hides the buttons |
| EditSession.EditorReturned | app/src/main/java/com/example/nativeimageprocessing/activities/EditActivity.kt:209-221 | An image handed back replaces the committed, displayed image; no image changes nothing. The preview and the buttons stay as they were |
| EditSession.PreviewDimensions | app/src/main/java/com/example/nativeimageprocessing/activities/EditActivity.kt:164-182 | A preview has as many pixels as the committed image. rotate90 and rotate270 swap width and height; every other filter keeps them |
| EditSession.NewDims | app/src/main/java/com/example/nativeimageprocessing/activities/EditActivity.kt:127-181 | The new dimensions are the old ones or the old ones swapped, the pixel count is kept, and only a rotation changes them; `EditSession.PreviewDimensions` says which rotations swap |
| EditSession.ApplyFilterEffects | app/src/main/java/com/example/nativeimageprocessing/activities/EditActivity.kt:143-156 | Brightness, contrast and blur hand the committed image to their screen and leave the session unchanged. Crop and any id not in the menu change nothing |
| EditSession.BuiltInPreview | app/src/main/java/com/example/nativeimageprocessing/activities/EditActivity.kt:125-141 | The grayscale, invert and sepia previews never fail, keep the dimensions, and hold exactly the native filter of the committed image |
| EditSession.PreviewDependsOnlyOnCurrent | app/src/main/java/com/example/nativeimageprocessing/activities/EditActivity.kt:115-118 | Two sessions with the same committed image get the same outcome and the same preview, whatever preview either showed |
| EditSession.UnsavedPreviewsDoNotCompound | app/src/main/java/com/example/nativeimageprocessing/activities/EditActivity.kt:114-118 | Choosing a filter while an unsaved preview is showing gives the preview it gives on the committed image |
| EditSession.CancelDiscardsPreview | app/src/main/java/com/example/nativeimageprocessing/activities/EditActivity.kt:97-100 | Cancel after any preview leaves and shows the committed image as before the preview |
| EditSession.SaveCommitsPreview | app/src/main/java/com/example/nativeimageprocessing/activities/EditActivity.kt:90-91 | Save after a preview succeeds and commits exactly that preview |
| EditSession.InvertSavedTwiceRestores | app/src/main/java/com/example/nativeimageprocessing/activities/EditActivity.kt:131-135 | Invert, Save, invert, Save restores the committed image the session started with |
| EditSession.Step | app/src/main/java/com/example/nativeimageprocessing/activities/EditActivity.kt:86-100 | Every event keeps the session consistent. The only failure is a too-short result of edge or rotate: Save never finds the preview missing |
| EditSession.Run | app/src/main/java/com/example/nativeimageprocessing/activities/EditActivity.kt:86-100 | Any sequence of events keeps the session consistent. A failure implies that some event chose edge or a rotation |
| EditSession.BuiltInFiltersNeverFail | app/src/main/java/com/example/nativeimageprocessing/activities/EditActivity.kt:193-197 | A sequence of events that never chooses edge or a rotation never fails |
| EditSession.SaveAfterEditorResultCommitsPreview | app/src/main/java/com/example/nativeimageprocessing/activities/EditActivity.kt:209-221 | If another screen returns an image while a preview is still open, a later Save replaces that image with the older preview |

## Left out

- Floating-point rounding in sepia, brightness and contrast. The
  `float`/`double` expressions are parameters, and IEEE rounding is not
  modelled. The `Exact*` reference evaluators use exact rationals.
- PointFilters.Sepia: states the result for any tone evaluator. That the
  tones are never negative is assumed through the `nat` fields of `Tone`,
  not derived from the coefficients.
- PointFilters.Brightness: states alpha and the channels only for pixels
  whose scaled channels are non-negative. A negative parameter corrupts
  alpha, as `NegativeBrightnessCorruptsAlpha` shows, and the slider never
  produces one.
- EditSession.CallNative: says nothing about the results of `edgeDetect`
  and `rotate`, whose native bodies are not part of this model. The screen
  only fixes the dimensions it gives their results.
- The JNI array calls (`GetIntArrayElements`, `ReleaseIntArrayElements`,
  `NewIntArray`, `SetIntArrayRegion`). Buffers are immutable sequences, so
  the input is only read by construction.
- The C++ left shifts on a signed `int` (`alpha << 24` overflowing, and
  `red << 16` or `green << 8` of a negative channel in brightness) are
  undefined before C++20. They are modelled as the two's-complement wrap
  the platform produces.
- The blur's unused `div` variable, and its scratch vectors `r`, `g`, `b`.
  The vectors only hold the means that are packed straight away.
- Crop has no implementation in the code either; only its dispatch to
  "not implemented" is modelled.
- Bitmap decoding and encoding, the image cache, gallery export, toasts,
  layout parameters, the RecyclerView adapter, permissions and camera
  intents. They are I/O and UI. The image another screen hands back is a
  parameter of `EditorReturned`.
- The brightness, contrast and blur screens (seek-bar wiring). They only
  supply parameters: 0..200 for brightness and 0..25 for blur.
  `ContrastActivity.kt` is not part of this model.
- Clicks on Save and Cancel are only modelled while the buttons are
  visible. A hidden (`GONE`) view receives no clicks.
- EditSession.Initial: starts with the Save/Cancel buttons hidden. The
  starting `GONE` visibility comes from the screen's layout file, which is
  not part of this model; `onCreate` never sets it. `Step`'s promise that
  Save always finds a preview rests on this starting state.
- EditSession.SetPixels: a bitmap is modelled as holding exactly the
  32-bit words given to `setPixels`. An ARGB_8888 bitmap from
  `createBitmap` stores colour premultiplied by alpha, so `getPixels` gives
  back the same words only for opaque pixels (alpha 255); a pixel such as
  0x00FFFFFF reads back as 0x00000000. The session lemmas
  (`EditSession.InvertSavedTwiceRestores` among them) hold for this
  idealised bitmap, which matches the real one on opaque images.
