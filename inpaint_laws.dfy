/** Properties of the inpainting pipeline: what the red mask selects, the
    error outcomes, and how the as-written pipeline differs from the one
    that hands the derived mask to the inpainter. */
module InpaintLaws {
  import opened Samples
  import opened Images
  import opened Transcoder
  import opened TranscoderLaws
  import opened Inpaint

  /** Pixel p of the red mask is 1 exactly when the overlay's red, green and
      blue samples there are 255, 0 and 0; otherwise it is 0. */
  lemma RedMaskAt(overlay: PlanarImage, p: nat)
    requires Overlay(overlay) && overlay != EmptyImage && p < Pixels(overlay)
    ensures var m := RedMask(overlay);
      m.depth == 1 && m.spectrum == 1 && Pixels(m) == Pixels(overlay) && p < Pixels(m)
    ensures Sample(RedMask(overlay), p, 0) ==
      if Sample(overlay, p, 0) == 255 && Sample(overlay, p, 1) == 0 && Sample(overlay, p, 2) == 0
      then 1 else 0
  {
    LayerSize(overlay);
  }

  /** The same, read off the drawn surface: pixel (x, y) of the mask is 1
      exactly when the surface's bytes there are red 255, green 0, blue 0,
      whatever its alpha. */
  lemma RedMaskOfSurface(src: ImageData, x: nat, y: nat)
    requires |src.data| == 4 * src.width * src.height
    requires x < src.width && y < src.height
    ensures Decode(src).Ok? && Overlay(Decode(src).value)
    ensures var m := RedMask(Decode(src).value);
      m.depth == 1 && m.spectrum == 1 && x + y * src.width < Pixels(m) &&
      4 * (x + y * src.width) + 2 < |src.data| &&
      Sample(m, x + y * src.width, 0) ==
        var i := 4 * (x + y * src.width);
        if src.data[i] == 255 && src.data[i + 1] == 0 && src.data[i + 2] == 0 then 1 else 0
  {
    DecodedOverlay(src);
    DecodeAt(src, x, y, 0);
    DecodeAt(src, x, y, 1);
    DecodeAt(src, x, y, 2);
    RedMaskAt(Decode(src).value, x + y * src.width);
  }

  /** Colours a smoothed stroke may leave, one shade off pure red, are not
      selected; pure red is selected with any alpha. */
  lemma NearRedIsNotMasked()
    ensures var m := Decode(ImageData([254, 0, 0, 255], 1, 1));
      m.Ok? && Overlay(m.value) && RedMask(m.value).samples == [0]
    ensures var m := Decode(ImageData([255, 1, 0, 255], 1, 1));
      m.Ok? && Overlay(m.value) && RedMask(m.value).samples == [0]
    ensures var m := Decode(ImageData([255, 0, 0, 0], 1, 1));
      m.Ok? && Overlay(m.value) && RedMask(m.value).samples == [1]
  {
    RedMaskOfSurface(ImageData([254, 0, 0, 255], 1, 1), 0, 0);
    RedMaskOfSurface(ImageData([255, 1, 0, 255], 1, 1), 0, 0);
    RedMaskOfSurface(ImageData([255, 0, 0, 0], 1, 1), 0, 0);
  }

  /** The pipeline ends with an image only when both surfaces hold 4 bytes
      per pixel and the inpainter succeeds; its result then has the
      inpainted image's size and 4 bytes per pixel. A surface of the wrong
      length ends it with the shape error, the photo's checked first. */
  lemma InpaintOutcome(imageData: ImageData, maskImageData: ImageData, inpaint: Inpainter)
    ensures var r := InpaintResult(imageData, maskImageData, inpaint);
      r.Ok? <==>
        Decode(imageData).Ok? && Decode(maskImageData).Ok? &&
        var out := inpaint(Decode(imageData).value, Decode(maskImageData).value);
        out.Some? && out.value.depth == 1 && out.value.spectrum in {1, 3, 4}
    ensures var r := InpaintResult(imageData, maskImageData, inpaint);
      r.Ok? ==>
        var out := inpaint(Decode(imageData).value, Decode(maskImageData).value).value;
        r.value.width == out.width && r.value.height == out.height &&
        |r.value.data| == 4 * out.width * out.height
    ensures |imageData.data| != 4 * imageData.width * imageData.height ==>
      InpaintResult(imageData, maskImageData, inpaint) == Err(ShapeMismatch)
    ensures |maskImageData.data| != 4 * maskImageData.width * maskImageData.height ==>
      InpaintResult(imageData, maskImageData, inpaint).Err? &&
      InpaintResult(imageData, maskImageData, inpaint).error == ShapeMismatch
  {
    DecodeShape(imageData);
    DecodeShape(maskImageData);
    if Decode(imageData).Ok? && Decode(maskImageData).Ok? {
      var out := inpaint(Decode(imageData).value, Decode(maskImageData).value);
      if out.Some? {
        EncodeShape(out.value);
      }
    }
  }

  /** An inpainter that leaves the photo as it is gives back the photo's
      surface unchanged, whichever pipeline runs and whatever the overlay;
      a photo of no pixels cannot be encoded again. */
  lemma KeepPhoto(imageData: ImageData, maskImageData: ImageData, dilate: Dilation)
    requires |imageData.data| == 4 * imageData.width * imageData.height
    requires |maskImageData.data| == 4 * maskImageData.width * maskImageData.height
    ensures var keep: Inpainter := (i, m) => Some(i);
      var r := if imageData.width > 0 && imageData.height > 0 then Ok(imageData) else Err(UnsupportedDepth);
      InpaintResult(imageData, maskImageData, keep) == r &&
      InpaintResultIntended(imageData, maskImageData, dilate, keep) == r
  {
    if imageData.width > 0 && imageData.height > 0 {
      EncodeDecode(imageData);
    } else {
      EmptySurface(imageData);
    }
  }

  /** An inpainter that returns, as its result, the mask it is given. */
  const Echo: Inpainter := (i, m) => Some(m)

  /** As written, what the inpainter is given is the decoded overlay: an
      inpainter that returns its mask makes the pipeline give back the
      overlay's own surface. */
  lemma AsWrittenGetsOverlay(imageData: ImageData, maskImageData: ImageData)
    requires |imageData.data| == 4 * imageData.width * imageData.height
    requires |maskImageData.data| == 4 * maskImageData.width * maskImageData.height
    requires maskImageData.width > 0 && maskImageData.height > 0
    ensures InpaintResult(imageData, maskImageData, Echo) == Ok(maskImageData)
  {
    DecodeShape(imageData);
    EncodeDecode(maskImageData);
  }

  /** Hence, as written, the result depends on the overlay itself and not
      only on the red mask derived from it: two overlays with the same
      (empty) red mask give different results. */
  lemma AsWrittenDependsOnOverlay()
    ensures var photo := ImageData([0, 0, 0, 255], 1, 1);
      var m1 := ImageData([0, 0, 0, 255], 1, 1);
      var m2 := ImageData([0, 0, 1, 255], 1, 1);
      Decode(m1).Ok? && Decode(m2).Ok? && Overlay(Decode(m1).value) && Overlay(Decode(m2).value) &&
      RedMask(Decode(m1).value) == RedMask(Decode(m2).value) &&
      InpaintResult(photo, m1, Echo) != InpaintResult(photo, m2, Echo)
  {
    var photo := ImageData([0, 0, 0, 255], 1, 1);
    var m1 := ImageData([0, 0, 0, 255], 1, 1);
    var m2 := ImageData([0, 0, 1, 255], 1, 1);
    AsWrittenGetsOverlay(photo, m1);
    AsWrittenGetsOverlay(photo, m2);
    RedMaskOfSurface(m1, 0, 0);
    RedMaskOfSurface(m2, 0, 0);
    assert RedMask(Decode(m1).value).samples == [0] == RedMask(Decode(m2).value).samples;
  }

  /** With the derived mask handed over, the overlay matters only through its
      red mask: overlays with equal red masks give equal results. */
  lemma IntendedDependsOnlyOnRedMask(imageData: ImageData, m1: ImageData, m2: ImageData,
                                     dilate: Dilation, inpaint: Inpainter)
    requires Decode(m1).Ok? && Decode(m2).Ok?
    requires Overlay(Decode(m1).value) && Overlay(Decode(m2).value)
    requires RedMask(Decode(m1).value) == RedMask(Decode(m2).value)
    ensures InpaintResultIntended(imageData, m1, dilate, inpaint) ==
            InpaintResultIntended(imageData, m2, dilate, inpaint)
  {
  }
}
