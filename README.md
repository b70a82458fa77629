# Synthetic-image compositing of one-shot object detection

This project models the compositing core of the data augmentation used by the
one-shot object detector: `superposition.cpp` builds the working buffers for
one synthetic training image, warps the object image into a transformed RGBA
buffer, and composites that buffer over the background with the `AoverB`
blend.

- `pixels.dfy` (module `Pixels`): 8-bit channels, `rgb8` and `rgba8` pixels,
  the two fill constants `RGB_WHITE` (opaque white) and `RGBA_WHITE` (white
  with alpha 0, i.e. transparent), and the per-pixel rgb to rgba conversion of
  `copy_and_convert_pixels`.
- `blend.dfy` (module `Blend`): the `AoverB` lambda and the per-pixel functor
  of `superimpose_image`, in the arithmetic the code really performs. Every
  quantity is a `size_t` (taken as 64 bits, so every operation is modulo
  2^64). Alpha is normalised as `A / 255` in integer division, so it is 0 or
  1, and 1 only for alpha 255. The `size_t` result is narrowed to 8 bits by the
  `rgb8` pixel constructor. The proofs show that on 8-bit inputs nothing
  wraps, and that the blend is a binary choice: a fully opaque foreground
  pixel shows its own colour, any other foreground pixel shows the background
  colour, and two pixels that are both below alpha 255 divide by zero. The
  code has no fallback for that division, so the functor requires a non-zero
  divisor (`Compositable`).
- `superposition.dfy` (module `Superposition`): the imperative part. Images
  are `array2` buffers indexed `[y, x]`. `fill_pixels`,
  `copy_and_convert_pixels`, the pixel-by-pixel `transform_pixels` of
  `superimpose_image`, the three-step `transform_and_superimpose_object_image`
  and `create_synthetic_image` are methods with loops, `modifies` clauses and
  post-states stated pixel by pixel. `transform_pixels` itself is also a
  value-level function (`TransformPixels`, generic in its functor), and
  `SuperimposeImage` is proved to leave exactly its result in the output
  buffer. Resampling and quadrilateral colouring
  are one kind of pass (`OverwritePixels`): it writes some pixels of the
  transformed buffer and leaves the others as they were. What each pass
  writes is a parameter, a map from positions to pixels. End to end,
  `CreateSyntheticImage` proves three things. The composite is always
  defined, because the background copy is opaque. The result has the
  background's dimensions. Each pixel is the transformed pixel's colour where
  that pixel ended with alpha 255, and the background's colour everywhere
  else, including every pixel neither pass wrote.

The blend is not fractional: `A / 255` makes each alpha 0 or 1, so a pixel
shows either the foreground or the background colour. A zero divisor has no
fallback in the code, so the model makes it a precondition (`Compositable`).

## Model

| member | source | states |
|---|---|---|
| `Pixels.RgbToRgba` | src/unity/toolkits/object_detection/one_shot_object_detection/util/superposition.cpp:75-78 | converting an rgb8 pixel to rgba8 keeps its colour and makes it fully opaque (alpha 255) |
| `Blend.NormalizedAlpha` | src/unity/toolkits/object_detection/one_shot_object_detection/util/superposition.cpp:37-39 | `A / 255` is 0 or 1, and it is 1 exactly when A is 255 |
| `Blend.ComplementNoUnderflow` | src/unity/toolkits/object_detection/one_shot_object_detection/util/superposition.cpp:32-39 | `1 - alpha_a` on a normalised alpha never wraps in size_t; the clause on 2 illustrates what a wrap would give (2^64 - 1) |
| `Blend.QuotientFits` | src/unity/toolkits/object_detection/one_shot_object_detection/util/superposition.cpp:33-34 | well-typedness helper for `AoverB`: the division by a non-zero size_t yields a size_t no larger than the numerator |
| `Blend.OpaqueForegroundTerms` | src/unity/toolkits/object_detection/one_shot_object_detection/util/superposition.cpp:32-35 | with alpha_a = 1 the background term vanishes: the numerator is the foreground channel and the denominator is 1, for every background channel and alpha_b |
| `Blend.TransparentOverOpaqueTerms` | src/unity/toolkits/object_detection/one_shot_object_detection/util/superposition.cpp:32-35 | with alpha_a = 0 and alpha_b = 1 the numerator is the background channel and the denominator is 1 |
| `Blend.BothTransparentTerms` | src/unity/toolkits/object_detection/one_shot_object_detection/util/superposition.cpp:33-34 | with both alphas 0 the denominator `alpha_a + alpha_b * (1 - alpha_a)` is 0 |
| `Blend.AoverB` | src/unity/toolkits/object_detection/one_shot_object_detection/util/superposition.cpp:32-35 | the `AoverB` lambda is defined only for a non-zero denominator (the code has no fallback); with alpha_a = 1 it returns the foreground channel whatever the background, with alpha_a = 0 and alpha_b = 1 the background channel |
| `Blend.DenominatorZeroIff` | src/unity/toolkits/object_detection/one_shot_object_detection/util/superposition.cpp:33-34 | for alphas in {0, 1} the denominator is 0 if and only if both alphas are 0 |
| `Blend.ExactOverSelects` | src/unity/toolkits/object_detection/one_shot_object_detection/util/superposition.cpp:33-34 | on unbounded integers, with alphas in {0, 1} and not both 0, the formula's denominator is 1 and it selects the foreground channel when alpha_a = 1, the background channel otherwise |
| `Blend.AoverBExact` | src/unity/toolkits/object_detection/one_shot_object_detection/util/superposition.cpp:32-39 | on 8-bit channels and normalised alphas, one of them 1, the size_t numerator stays below 256 and the denominator is 1, so nothing wraps; the result equals the formula on unbounded integers and is below 256 |
| `Blend.Narrow` | src/unity/toolkits/object_detection/one_shot_object_detection/util/superposition.cpp:36-39 | narrowing a size_t to an 8-bit channel keeps every value below 256 |
| `Blend.AlphaDivisorIff` | src/unity/toolkits/object_detection/one_shot_object_detection/util/superposition.cpp:32-39 | on two raw alpha channels the normalised divisor is non-zero if and only if one of them is 255 |
| `Blend.Compositable` | src/unity/toolkits/object_detection/one_shot_object_detection/util/superposition.cpp:32-39 | the per-pixel functor is defined (non-zero divisor) if and only if the foreground or the background pixel has alpha 255; two translucent pixels divide by zero |
| `Blend.ChannelSelect` | src/unity/toolkits/object_detection/one_shot_object_detection/util/superposition.cpp:36-39 | one output channel, after narrowing, is the foreground channel when the foreground alpha is 255 and the background channel otherwise |
| `Blend.Composite` | src/unity/toolkits/object_detection/one_shot_object_detection/util/superposition.cpp:27-40 | the per-pixel functor maps red to red, green to green, blue to blue; an opaque foreground gives the foreground colour whatever the background, any other foreground gives the background colour |
| `Blend.CompositeOverOpaque` | src/unity/toolkits/object_detection/one_shot_object_detection/util/superposition.cpp:27-40 | over a background converted from RGB the functor is always defined and gives the foreground colour exactly when the foreground alpha is 255, the background colour otherwise |
| `Superposition.FillPixels` | src/unity/toolkits/object_detection/one_shot_object_detection/util/superposition.cpp:79-82 | after `fill_pixels` every pixel of the buffer is the fill value |
| `Superposition.CopyAndConvertPixels` | src/unity/toolkits/object_detection/one_shot_object_detection/util/superposition.cpp:74-78 | every pixel of the RGBA copy is the background pixel's colour with alpha 255 |
| `Superposition.OverwritePixels` | src/unity/toolkits/object_detection/one_shot_object_detection/util/superposition.cpp:62-67 | a resampling or colouring pass leaves every pixel it does not write as it was and the buffer's dimensions unchanged |
| `Superposition.TransformRow` | src/unity/toolkits/object_detection/one_shot_object_detection/util/superposition.cpp:26-41 | `transform_pixels` over one row, as a value (the counterpart of the library call that `SuperimposeImage` performs in place): the output row has the source rows' length and each pixel is the functor applied to the two source pixels at that position |
| `Superposition.TransformPixels` | src/unity/toolkits/object_detection/one_shot_object_detection/util/superposition.cpp:26-41 | `transform_pixels` over a whole image, as a value (the counterpart of the in-place `SuperimposeImage`): the output has the sources' shape and pixel (y, x) is the functor of the two source pixels at (y, x) and depends on nothing else |
| `Superposition.SuperimposeImage` | src/unity/toolkits/object_detection/one_shot_object_detection/util/superposition.cpp:23-42 | the output buffer ends as `TransformPixels` with the functor `Composite` of the foreground and background buffers: every output pixel is overwritten with the functor of the two pixels at its position, provided no position has two translucent pixels |
| `Superposition.TransformAndSuperimposeObjectImage` | src/unity/toolkits/object_detection/one_shot_object_detection/util/superposition.cpp:44-69 | requires a decoded four-channel object image; the transformed buffer ends as the resampled writes then the colouring writes over its old contents, and the output is their composite over the background |
| `Superposition.AllocateBuffers` | src/unity/toolkits/object_detection/one_shot_object_detection/util/superposition.cpp:74-82 | the three working buffers are fresh, distinct and of the background's dimensions: an opaque copy of the background, transparent white, opaque white |
| `Superposition.CreateSyntheticImage` | src/unity/toolkits/object_detection/one_shot_object_detection/util/superposition.cpp:71-86 | the result has the background's dimensions; each pixel is the final transformed pixel's colour where its alpha is 255 and the background's colour otherwise, so pixels neither pass wrote show the background and the white pre-fill never survives |

## Left out

- Resampling (`resample_pixels` with `bilinear_sampler` and the `float` inverse of the sampled 3×3 transform): floating-point geometry inside Boost.GIL and Eigen. `Superposition.OverwritePixels` models it as a pass that writes some pixels and keeps the buffer's dimensions; what it writes is the parameter `resampled`.
- `color_quadrilateral`, `ParameterSampler::get_transform` and `ParameterSampler::get_warped_corners`: their code (quadrilateral_geometry, mapping_function) is not part of this model. The colouring is the same kind of pass, with the parameter `coloured`.
- `image_util::resize_image`, `flex_image` decoding and the `interleaved_view` over the raw pixel data: foreign calls and memory layout. Only the part of the resized object image's header that the code checks is modelled (`FlexImage`: decoded, four channels), with the two checks as preconditions; its width and height only feed the resampling, which is a parameter here. These checks are `DASSERT`s, which are active in debug builds only.
- The final `flex_image(superimposed)` wrapping: `CreateSyntheticImage` returns the RGB buffer itself, not a `flex_image` header around a copy of it.
- `size_t` is taken to be 64 bits wide; on 8-bit inputs the width does not matter, since `Blend.AoverBExact` shows that the numerator stays below 256 and the denominator is 1, so no sum or product comes near it.
- Row strides and padding of GIL views: images are plain two-dimensional arrays.
- The style-transfer model wrapper (`src/toolkits/style_transfer/style_transfer.hpp`): declarations over a neural-network runtime, model export and persistence, with no logic to model.
