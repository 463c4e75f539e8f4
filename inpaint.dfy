/** The `inpaintPipeline` binding: decode a photo and a drawn overlay,
    derive a one-channel 0/1 mask of the overlay's pure-red pixels, dilate
    it, inpaint the photo and encode the result. The inpainting and the
    dilation are library operations whose code is not part of this model;
    they are parameters here. */
module Inpaint {
  import opened Samples
  import opened Images
  import opened Transcoder

  /** `img.dilate(size)`: the library's morphological dilation. */
  type Dilation = (PlanarImage, nat) -> PlanarImage

  /** `image.inpaint_patch(mask)`: the library's patch-based inpainting of
      `image` where `mask` is set; None when it throws. */
  type Inpainter = (PlanarImage, PlanarImage) -> Option<PlanarImage>

  /** The structuring-element size the pipeline dilates with. */
  const DilationSize: nat := 3

  /** The shapes `fromImageData` produces: one-layer RGBA, or empty. */
  predicate Overlay(img: PlanarImage) {
    img == EmptyImage || (img.depth == 1 && img.spectrum == 4)
  }

  /** Pixel p of four channel planes of n pixels is exactly (255, 0, 0). */
  predicate IsPureRed(s: seq<byte>, n: nat, p: nat)
    requires |s| == 4 * n && p < n
  {
    s[p] == 255 && s[p + n] == 0 && s[p + 2 * n] == 0
  }

  /** The mask the pipeline derives from an overlay: one channel of the
      overlay's size, 1 where the overlay is pure red and 0 elsewhere. */
  function RedMask(overlay: PlanarImage): (m: PlanarImage)
    requires Overlay(overlay)
    ensures (m.width, m.height, m.depth, m.spectrum) == Shape(overlay.width, overlay.height, 1, 1)
  {
    if overlay == EmptyImage then EmptyImage
    else
      LayerSize(overlay);
      var n := Pixels(overlay);
      Planar(overlay.width, overlay.height, 1, 1, RedPlane(overlay.samples, n))
  }

  /** The 0/1 plane of the pure-red pixels of four planes of n pixels. */
  function RedPlane(s: seq<byte>, n: nat): seq<byte>
    requires |s| == 4 * n
  {
    seq(n, p requires 0 <= p < n => if IsPureRed(s, n, p) then 1 else 0)
  }

  /** What the pipeline returns, as the code is written: the overlay itself,
      not the derived mask, is what `inpaint_patch` receives. */
  function InpaintResult(imageData: ImageData, maskImageData: ImageData, inpaint: Inpainter): Result<ImageData> {
    match Decode(imageData)
    case Err(e) => Err(e)
    case Ok(image) =>
      match Decode(maskImageData)
      case Err(e) => Err(e)
      case Ok(mask) =>
        match inpaint(image, mask)
        case None => Err(InpaintFailure)
        case Some(out) => Encode(out)
  }

  /** What the pipeline returns when the dilated red mask is what
      `inpaint_patch` receives, as the comments around it describe. */
  function InpaintResultIntended(imageData: ImageData, maskImageData: ImageData,
                                 dilate: Dilation, inpaint: Inpainter): Result<ImageData> {
    match Decode(imageData)
    case Err(e) => Err(e)
    case Ok(image) =>
      match Decode(maskImageData)
      case Err(e) => Err(e)
      case Ok(mask) =>
        DecodedOverlay(maskImageData);
        match inpaint(image, dilate(RedMask(mask), DilationSize))
        case None => Err(InpaintFailure)
        case Some(out) => Encode(out)
  }

  /** Whatever `fromImageData` produces is an overlay shape. */
  lemma DecodedOverlay(src: ImageData)
    ensures Decode(src).Ok? ==> Overlay(Decode(src).value)
  {
  }

  /** The `cimg_forXY` loop that fills `binaryMask`: pixel (x, y) gets 1
      exactly when the overlay's R, G, B there are 255, 0, 0. */
  method BuildRedMask(mask: Image) returns (binaryMask: Image)
    requires mask.Valid() && Overlay(mask.Value())
    ensures fresh(binaryMask) && fresh(binaryMask.data)
    ensures binaryMask.Valid() && binaryMask.Value() == RedMask(mask.Value())
  {
    binaryMask := new Image.Filled(mask.width, mask.height, 1, 1, 0);
    if mask.width == 0 {
      return;
    }
    LayerSize(mask.Value());
    FillRedMask(mask.data, mask.width, mask.height, binaryMask.data);
  }

  /** The loop itself, over the overlay's planes `a` and the mask's plane. */
  method FillRedMask(a: array<byte>, width: nat, height: nat, buf: array<byte>)
    requires a.Length == 4 * (width * height) && buf.Length == width * height
    requires a != buf
    modifies buf
    ensures buf[..] == RedPlane(a[..], width * height)
  {
    var n := width * height;
    ghost var s := a[..];
    ghost var k := 0;  // pixels done, x + y * width
    for y := 0 to height
      invariant k == y * width && k <= n
      invariant forall q :: 0 <= q < k ==> buf[q] == RedPlane(s, n)[q]
    {
      for x := 0 to width
        invariant k == x + y * width && k <= n
        invariant forall q :: 0 <= q < k ==> buf[q] == RedPlane(s, n)[q]
      {
        PixelInRange(width, height, x, y);
        var p := x + y * width;
        buf[p] := if a[p] == 255 && a[p + n] == 0 && a[p + 2 * n] == 0 then 1 else 0;
        k := k + 1;
      }
      assert (y + 1) * width == y * width + width;
    }
    assert buf[..] == RedPlane(s, n);
  }

  /** `inpaintPipeline(imageData, maskImageData)` as written: both inputs are
      decoded (an invalid one ends the call), the red mask is built and
      dilated in place, and `inpaint_patch` is called with the decoded
      overlay before the photo is encoded. */
  method InpaintPipeline(imageData: ImageData, maskImageData: ImageData,
                         dilate: Dilation, inpaintPatch: Inpainter) returns (r: Result<ImageData>)
    ensures r == InpaintResult(imageData, maskImageData, inpaintPatch)
  {
    var image := new Image();
    var decoded := FromImageData(image, imageData);
    if decoded.Fail? {
      return Err(decoded.error);
    }
    var mask := new Image();
    decoded := FromImageData(mask, maskImageData);
    if decoded.Fail? {
      return Err(decoded.error);
    }
    DecodedOverlay(maskImageData);
    var binaryMask := BuildRedMask(mask);
    binaryMask.Load(dilate(binaryMask.Value(), DilationSize));
    var inpainted := inpaintPatch(image.Value(), mask.Value());
    if inpainted.None? {
      return Err(InpaintFailure);
    }
    image.Load(inpainted.value);
    r := ToImageData(image);
  }

  /** The pipeline with the dilated red mask handed to `inpaint_patch`. */
  method InpaintPipelineIntended(imageData: ImageData, maskImageData: ImageData,
                                 dilate: Dilation, inpaintPatch: Inpainter) returns (r: Result<ImageData>)
    ensures r == InpaintResultIntended(imageData, maskImageData, dilate, inpaintPatch)
  {
    var image := new Image();
    var decoded := FromImageData(image, imageData);
    if decoded.Fail? {
      return Err(decoded.error);
    }
    var mask := new Image();
    decoded := FromImageData(mask, maskImageData);
    if decoded.Fail? {
      return Err(decoded.error);
    }
    DecodedOverlay(maskImageData);
    var binaryMask := BuildRedMask(mask);
    binaryMask.Load(dilate(binaryMask.Value(), DilationSize));
    var inpainted := inpaintPatch(image.Value(), binaryMask.Value());
    if inpainted.None? {
      return Err(InpaintFailure);
    }
    image.Load(inpainted.value);
    r := ToImageData(image);
  }
}
