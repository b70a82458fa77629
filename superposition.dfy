/** The buffers of the one-shot object detection data augmentation and the
    steps that fill and combine them: superimpose_image,
    transform_and_superimpose_object_image and create_synthetic_image.
    Images are two-dimensional arrays indexed [y, x] (row, then column). */
module Superposition {
  import opened Pixels
  import opened Blend

  /** A pixel position (y, x). */
  type Coord = (int, int)

  /** The part of a flex_image header that the code checks: the channel count
      and whether its pixels are decoded (as opposed to still encoded as PNG
      or JPEG). Its dimensions only feed the resampling, which is given here
      as the pixels it writes, so they are not kept. */
  datatype FlexImage = FlexImage(channels: nat, decoded: bool)

  /** Two images have the same dimensions. */
  predicate SameDims<S, T>(p: array2<S>, q: array2<T>)
  {
    p.Length0 == q.Length0 && p.Length1 == q.Length1
  }

  /** The pixel at `c` after a pass that wrote the pixels in `writes` and left
      every other pixel as it was. */
  function AfterWrites(p: Rgba8, c: Coord, writes: map<Coord, Rgba8>): Rgba8
  {
    if c in writes then writes[c] else p
  }

  /** The transformed buffer's pixel at `c` at the end of the pipeline: the
      transparent-white fill, then what the resampler wrote, then what the
      quadrilateral colouring wrote. */
  function TransformedPixel(c: Coord, resampled: map<Coord, Rgba8>, coloured: map<Coord, Rgba8>): Rgba8
  {
    AfterWrites(AfterWrites(RgbaWhite, c, resampled), c, coloured)
  }

  /** fill_pixels: every pixel of `view` becomes `value`. */
  method FillPixels<T>(view: array2<T>, value: T)
    modifies view
    ensures forall y, x :: 0 <= y < view.Length0 && 0 <= x < view.Length1 ==> view[y, x] == value
  {
    var y := 0;
    while y < view.Length0
      invariant 0 <= y <= view.Length0
      invariant forall y', x' :: 0 <= y' < y && 0 <= x' < view.Length1 ==> view[y', x'] == value
    {
      var x := 0;
      while x < view.Length1
        invariant 0 <= x <= view.Length1
        invariant forall y', x' :: 0 <= y' < y && 0 <= x' < view.Length1 ==> view[y', x'] == value
        invariant forall x' :: 0 <= x' < x ==> view[y, x'] == value
      {
        view[y, x] := value;
        x := x + 1;
      }
      y := y + 1;
    }
  }

  /** copy_and_convert_pixels from an rgb8 view into an rgba8 view of the same
      dimensions: colours copied, every pixel made fully opaque. */
  method CopyAndConvertPixels(src: array2<Rgb8>, dst: array2<Rgba8>)
    requires SameDims(src, dst)
    modifies dst
    ensures forall y, x :: 0 <= y < dst.Length0 && 0 <= x < dst.Length1 ==> dst[y, x] == RgbToRgba(src[y, x])
  {
    var y := 0;
    while y < dst.Length0
      invariant 0 <= y <= dst.Length0
      invariant forall y', x' :: 0 <= y' < y && 0 <= x' < dst.Length1 ==> dst[y', x'] == RgbToRgba(src[y', x'])
    {
      var x := 0;
      while x < dst.Length1
        invariant 0 <= x <= dst.Length1
        invariant forall y', x' :: 0 <= y' < y && 0 <= x' < dst.Length1 ==> dst[y', x'] == RgbToRgba(src[y', x'])
        invariant forall x' :: 0 <= x' < x ==> dst[y, x'] == RgbToRgba(src[y, x'])
      {
        dst[y, x] := RgbToRgba(src[y, x]);
        x := x + 1;
      }
      y := y + 1;
    }
  }

  /** A pass over the transformed buffer that writes the pixels in `writes`
      and leaves every other pixel as it was. Resampling (resample_pixels
      with the bilinear sampler and the inverse of the sampled transform) and
      the quadrilateral colouring are both passes of this kind; `writes`
      stands for what the pass computed, which depends on floating-point
      geometry outside this model. Positions outside the buffer are ignored. */
  method OverwritePixels(view: array2<Rgba8>, writes: map<Coord, Rgba8>)
    modifies view
    ensures forall y, x :: 0 <= y < view.Length0 && 0 <= x < view.Length1 ==>
              view[y, x] == AfterWrites(old(view[y, x]), (y, x), writes)
  {
    var y := 0;
    while y < view.Length0
      invariant 0 <= y <= view.Length0
      invariant forall y', x' :: 0 <= y' < y && 0 <= x' < view.Length1 ==>
                  view[y', x'] == AfterWrites(old(view[y', x']), (y', x'), writes)
      invariant forall y', x' :: y <= y' < view.Length0 && 0 <= x' < view.Length1 ==>
                  view[y', x'] == old(view[y', x'])
    {
      var x := 0;
      while x < view.Length1
        invariant 0 <= x <= view.Length1
        invariant forall y', x' :: 0 <= y' < y && 0 <= x' < view.Length1 ==>
                    view[y', x'] == AfterWrites(old(view[y', x']), (y', x'), writes)
        invariant forall x' :: 0 <= x' < x ==> view[y, x'] == AfterWrites(old(view[y, x']), (y, x'), writes)
        invariant forall y', x' :: y <= y' < view.Length0 && 0 <= x' < view.Length1 && (y' != y || x' >= x) ==>
                    view[y', x'] == old(view[y', x'])
      {
        if (y, x) in writes {
          view[y, x] := writes[(y, x)];
        }
        x := x + 1;
      }
      y := y + 1;
    }
  }

  /** The pixels of an image, row by row. */
  ghost function Rows<T>(image: array2<T>): (rows: seq<seq<T>>)
    reads image
    ensures |rows| == image.Length0
    ensures forall y :: 0 <= y < image.Length0 ==> |rows[y]| == image.Length1
    ensures forall y, x :: 0 <= y < image.Length0 && 0 <= x < image.Length1 ==> rows[y][x] == image[y, x]
  {
    seq(image.Length0, y requires 0 <= y < image.Length0 reads image =>
      seq(image.Length1, x requires 0 <= x < image.Length1 reads image => image[y, x]))
  }

  /** boost::gil::transform_pixels over one row, as a value: `f` applied to
      the two source pixels at each position. This and TransformPixels are
      the value-level counterpart of the library call; SuperimposeImage
      performs it in place on arrays and is specified by it. */
  function TransformRow<A, B, C>(src1: seq<A>, src2: seq<B>, f: (A, B) --> C): (dst: seq<C>)
    requires |src1| == |src2|
    requires forall x :: 0 <= x < |src1| ==> f.requires(src1[x], src2[x])
    ensures |dst| == |src1|
    ensures forall x :: 0 <= x < |dst| ==> dst[x] == f(src1[x], src2[x])
  {
    if src1 == [] then [] else [f(src1[0], src2[0])] + TransformRow(src1[1..], src2[1..], f)
  }

  /** boost::gil::transform_pixels over a whole image, as a value: the result
      has the sources' shape and its pixel (y, x) is `f` of the two source
      pixels at (y, x) and of nothing else. */
  function TransformPixels<A, B, C>(src1: seq<seq<A>>, src2: seq<seq<B>>, f: (A, B) --> C): (dst: seq<seq<C>>)
    requires |src1| == |src2|
    requires forall y :: 0 <= y < |src1| ==> |src1[y]| == |src2[y]|
    requires forall y, x :: 0 <= y < |src1| && 0 <= x < |src1[y]| ==> f.requires(src1[y][x], src2[y][x])
    ensures |dst| == |src1|
    ensures forall y :: 0 <= y < |dst| ==> |dst[y]| == |src1[y]|
    ensures forall y, x :: 0 <= y < |dst| && 0 <= x < |src1[y]| ==> dst[y][x] == f(src1[y][x], src2[y][x])
  {
    if src1 == [] then []
    else [TransformRow(src1[0], src2[0], f)] + TransformPixels(src1[1..], src2[1..], f)
  }

  /** superimpose_image: every pixel of `superimposed` becomes the functor
      applied to the transformed (foreground) and background pixels at the
      same position. The functor divides by zero where both pixels are
      translucent, so no position may have that. */
  method SuperimposeImage(superimposed: array2<Rgb8>, transformed: array2<Rgba8>, background: array2<Rgba8>)
    requires SameDims(superimposed, transformed) && SameDims(superimposed, background)
    requires forall y, x :: 0 <= y < transformed.Length0 && 0 <= x < transformed.Length1 ==>
               Compositable(transformed[y, x], background[y, x])
    modifies superimposed
    ensures Rows(superimposed) == TransformPixels(Rows(transformed), Rows(background), Composite)
    ensures forall y, x :: 0 <= y < superimposed.Length0 && 0 <= x < superimposed.Length1 ==>
              superimposed[y, x] == Composite(transformed[y, x], background[y, x])
  {
    var y := 0;
    while y < superimposed.Length0
      invariant 0 <= y <= superimposed.Length0
      invariant forall y', x' :: 0 <= y' < y && 0 <= x' < superimposed.Length1 ==>
                  superimposed[y', x'] == Composite(transformed[y', x'], background[y', x'])
    {
      var x := 0;
      while x < superimposed.Length1
        invariant 0 <= x <= superimposed.Length1
        invariant forall y', x' :: 0 <= y' < y && 0 <= x' < superimposed.Length1 ==>
                    superimposed[y', x'] == Composite(transformed[y', x'], background[y', x'])
        invariant forall x' :: 0 <= x' < x ==>
                    superimposed[y, x'] == Composite(transformed[y, x'], background[y, x'])
      {
        superimposed[y, x] := Composite(transformed[y, x], background[y, x]);
        x := x + 1;
      }
      y := y + 1;
    }
    ghost var out, spec := Rows(superimposed), TransformPixels(Rows(transformed), Rows(background), Composite);
    assert forall y' :: 0 <= y' < |out| ==> out[y'] == spec[y'];
  }

  /** transform_and_superimpose_object_image. `objectImage` is the object image
      after image_util::resize_image (not part of this model) has converted it
      to four channels at its own size; the code asserts that the result is
      decoded and has four channels. The resampling writes `resampled` into
      `transformed`, the quadrilateral colouring then writes `coloured`, and
      the result is composited over `background` into `superimposed`. */
  method TransformAndSuperimposeObjectImage(objectImage: FlexImage,
                                            resampled: map<Coord, Rgba8>, coloured: map<Coord, Rgba8>,
                                            superimposed: array2<Rgb8>, transformed: array2<Rgba8>,
                                            background: array2<Rgba8>)
    requires objectImage.decoded && objectImage.channels == 4
    requires SameDims(superimposed, transformed) && SameDims(superimposed, background)
    requires transformed != background
    requires forall y, x :: 0 <= y < transformed.Length0 && 0 <= x < transformed.Length1 ==>
               Compositable(AfterWrites(AfterWrites(transformed[y, x], (y, x), resampled), (y, x), coloured),
                            background[y, x])
    modifies superimposed, transformed
    ensures forall y, x :: 0 <= y < transformed.Length0 && 0 <= x < transformed.Length1 ==>
              transformed[y, x] == AfterWrites(AfterWrites(old(transformed[y, x]), (y, x), resampled), (y, x), coloured)
    ensures forall y, x :: 0 <= y < superimposed.Length0 && 0 <= x < superimposed.Length1 ==>
              superimposed[y, x] == Composite(transformed[y, x], background[y, x])
  {
    OverwritePixels(transformed, resampled);
    OverwritePixels(transformed, coloured);
    SuperimposeImage(superimposed, transformed, background);
  }

  /** The three working buffers of create_synthetic_image, each of the
      background's dimensions: an opaque RGBA copy of the background, the
      transformed buffer filled with transparent white, and the output
      buffer filled with opaque white. */
  method AllocateBuffers(background: array2<Rgb8>)
    returns (backgroundRgba: array2<Rgba8>, transformed: array2<Rgba8>, superimposed: array2<Rgb8>)
    ensures fresh(backgroundRgba) && fresh(transformed) && fresh(superimposed)
    ensures backgroundRgba != transformed
    ensures SameDims(backgroundRgba, background) && SameDims(transformed, background)
    ensures SameDims(superimposed, background)
    ensures forall y, x :: 0 <= y < background.Length0 && 0 <= x < background.Length1 ==>
              backgroundRgba[y, x] == RgbToRgba(background[y, x]) && transformed[y, x] == RgbaWhite
              && superimposed[y, x] == RgbWhite
  {
    backgroundRgba := new Rgba8[background.Length0, background.Length1];
    CopyAndConvertPixels(background, backgroundRgba);
    transformed := new Rgba8[background.Length0, background.Length1];
    FillPixels(transformed, RgbaWhite);
    superimposed := new Rgb8[background.Length0, background.Length1];
    FillPixels(superimposed, RgbWhite);
  }

  /** create_synthetic_image. The background is opaque, so the composite is
      defined at every pixel whatever the two passes wrote; the result has
      the background's dimensions, and each pixel is the transformed pixel's
      colour where that pixel ended fully opaque and the background's colour
      everywhere else, in particular wherever neither pass wrote. Nothing of
      the opaque-white fill of the output buffer survives. The code takes the
      object image as given and resizes it inside
      transform_and_superimpose_object_image; `objectImage` is the header that
      resize_image returns, hence the same requirement as there. */
  method CreateSyntheticImage(background: array2<Rgb8>, objectImage: FlexImage,
                              resampled: map<Coord, Rgba8>, coloured: map<Coord, Rgba8>)
    returns (synthetic: array2<Rgb8>)
    requires objectImage.decoded && objectImage.channels == 4
    ensures fresh(synthetic) && SameDims(synthetic, background)
    ensures forall y, x :: 0 <= y < background.Length0 && 0 <= x < background.Length1 ==>
              synthetic[y, x] == (var t := TransformedPixel((y, x), resampled, coloured);
                                  if t.a == OpaqueAlpha then ColorOf(t) else background[y, x])
    ensures forall y, x ::
              0 <= y < background.Length0 && 0 <= x < background.Length1 &&
              (y, x) !in resampled && (y, x) !in coloured ==>
                synthetic[y, x] == background[y, x]
  {
    var backgroundRgba, transformed, superimposed := AllocateBuffers(background);
    forall y, x | 0 <= y < background.Length0 && 0 <= x < background.Length1
      ensures Compositable(AfterWrites(AfterWrites(transformed[y, x], (y, x), resampled), (y, x), coloured),
                           backgroundRgba[y, x])
    {
      CompositeOverOpaque(TransformedPixel((y, x), resampled, coloured), background[y, x]);
    }
    TransformAndSuperimposeObjectImage(objectImage, resampled, coloured, superimposed, transformed, backgroundRgba);
    forall y, x | 0 <= y < background.Length0 && 0 <= x < background.Length1
      ensures superimposed[y, x] == (var t := TransformedPixel((y, x), resampled, coloured);
                                     if t.a == OpaqueAlpha then ColorOf(t) else background[y, x])
    {
      CompositeOverOpaque(TransformedPixel((y, x), resampled, coloured), background[y, x]);
    }
    synthetic := superimposed;
  }
}
