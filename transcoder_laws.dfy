/** What `fromImageData` and `toImageData` promise about each other and
    about single pixels: the shape and error cases of both conversions, the
    rule each spectrum is rendered by, and the round trips between an RGBA
    surface and a 4-channel image. */
module TranscoderLaws {
  import opened Samples
  import opened Images
  import opened Transcoder

  // ---------------------------------------------------------------------
  // fromImageData

  /** The surface is accepted exactly when it holds 4 bytes per pixel; an
      accepted surface of positive size gives a width x height x 1 x 4 image
      and one of zero size gives the empty image. */
  lemma DecodeShape(src: ImageData)
    ensures Decode(src).Ok? <==> |src.data| == 4 * src.width * src.height
    ensures Decode(src).Err? ==> Decode(src).error == ShapeMismatch
    ensures Decode(src).Ok? && src.width > 0 && src.height > 0 ==>
      var img := Decode(src).value;
      img.width == src.width && img.height == src.height && img.depth == 1 && img.spectrum == 4
    ensures Decode(src).Ok? && (src.width == 0 || src.height == 0) ==> Decode(src).value == EmptyImage
  {
  }

  /** Sample (x, y, 0, c) of the decoded image is byte 4 * (x + y * W) + c
      of the surface. */
  lemma DecodeAt(src: ImageData, x: nat, y: nat, c: nat)
    requires |src.data| == 4 * src.width * src.height
    requires x < src.width && y < src.height && c < 4
    ensures Decode(src).Ok?
    ensures var img := Decode(src).value;
      img.depth == 1 && img.spectrum == 4 && Pixels(img) == src.width * src.height &&
      x + y * img.width < Pixels(img) &&
      Sample(img, x + y * img.width, c) == src.data[4 * (x + y * src.width) + c]
  {
    var w, h := src.width, src.height;
    PixelInRange(w, h, x, y);
    PlanesAt(src.data, w * h, x + y * w, c);
  }

  // ---------------------------------------------------------------------
  // toImageData

  /** The largest sample is 1 exactly when every sample is 0 or 1 and one of
      them is 1: the case `toImageData` renders as a red-on-black mask. */
  lemma MaxIsOne(s: seq<byte>)
    requires |s| > 0
    ensures MaxSample(s) == 1 <==> (forall i :: 0 <= i < |s| ==> s[i] <= 1) && (exists i :: 0 <= i < |s| && s[i] == 1)
  {
    var m := MaxSample(s);
    if (forall i :: 0 <= i < |s| ==> s[i] <= 1) && (exists i :: 0 <= i < |s| && s[i] == 1) {
      var j :| 0 <= j < |s| && s[j] == 1;
      assert s[j] <= m;
    }
  }

  /** `toImageData` fails exactly on an image that is not one layer deep or
      whose spectrum is not 1, 3 or 4, and the depth is checked first; when
      it succeeds the surface has the image's width and height and 4 bytes
      per pixel. */
  lemma EncodeShape(img: PlanarImage)
    ensures Encode(img).Err? <==> img.depth != 1 || img.spectrum !in {1, 3, 4}
    ensures Encode(img).Err? ==>
      Encode(img).error == if img.depth != 1 then UnsupportedDepth else UnsupportedSpectrum
    ensures Encode(img).Ok? ==>
      var out := Encode(img).value;
      out.width == img.width && out.height == img.height &&
      |out.data| == 4 * img.width * img.height && img.width > 0 && img.height > 0
  {
    if img.depth == 1 {
      LayerSize(img);
    }
  }

  // Pixel p below is the pixel (x, y) with p = x + y * width, which lies
  // below width * height (Images.PixelInRange); its bytes sit at 4 * p + k.

  /** Spectrum 4: byte k of pixel p is channel k. */
  lemma EncodeRgbaAt(img: PlanarImage, p: nat, k: nat)
    requires img.depth == 1 && img.spectrum == 4
    requires p < Pixels(img) && k < 4
    ensures Encode(img).Ok? && 4 * p + k < |Encode(img).value.data|
    ensures Encode(img).value.data[4 * p + k] == Sample(img, p, k)
  {
    assert ModeOf(img) == Ok(Rgba);
    EncodeAt(img, Rgba, p, k);
    PlaneByte(img.samples, Pixels(img), Rgba, p, k);
  }

  /** Spectrum 3: bytes 0, 1, 2 of pixel p are its channels and byte 3 is
      opaque. */
  lemma EncodeRgbAt(img: PlanarImage, p: nat, k: nat)
    requires img.depth == 1 && img.spectrum == 3
    requires p < Pixels(img) && k < 4
    ensures Encode(img).Ok? && 4 * p + k < |Encode(img).value.data|
    ensures Encode(img).value.data[4 * p + k] == if k < 3 then Sample(img, p, k) else 255
  {
    assert ModeOf(img) == Ok(Rgb);
    EncodeAt(img, Rgb, p, k);
    if k < 3 {
      PlaneByte(img.samples, Pixels(img), Rgb, p, k);
    }
  }

  /** Spectrum 1 with every sample 0 or 1 and some sample 1 is rendered as a
      mask. */
  lemma BinaryMode(img: PlanarImage)
    requires img.depth == 1 && img.spectrum == 1
    requires forall i :: 0 <= i < |img.samples| ==> img.samples[i] <= 1
    requires exists i :: 0 <= i < |img.samples| && img.samples[i] == 1
    ensures ModeOf(img) == Ok(Binary)
  {
    LayerSize(img);
    MaxIsOne(img.samples);
  }

  /** Spectrum 1 with some sample above 1, or with every sample 0, is
      rendered as grey. */
  lemma GrayscaleMode(img: PlanarImage)
    requires img.depth == 1 && img.spectrum == 1
    requires (exists i :: 0 <= i < |img.samples| && img.samples[i] > 1) ||
             (forall i :: 0 <= i < |img.samples| ==> img.samples[i] == 0)
    ensures ModeOf(img) == Ok(Grayscale)
  {
    LayerSize(img);
    MaxIsOne(img.samples);
  }

  /** Spectrum 1, every sample 0 or 1 and some sample 1: a set pixel becomes
      opaque red, a clear one opaque black. */
  lemma EncodeBinaryAt(img: PlanarImage, p: nat, k: nat)
    requires img.depth == 1 && img.spectrum == 1
    requires forall i :: 0 <= i < |img.samples| ==> img.samples[i] <= 1
    requires exists i :: 0 <= i < |img.samples| && img.samples[i] == 1
    requires p < Pixels(img) && k < 4
    ensures Encode(img).Ok? && 4 * p + k < |Encode(img).value.data|
    ensures Encode(img).value.data[4 * p + k] ==
      if k == 1 || k == 2 then 0
      else if k == 3 then 255
      else if Sample(img, p, 0) != 0 then 255
      else 0
  {
    BinaryMode(img);
    EncodeAt(img, Binary, p, k);
  }

  /** Spectrum 1 otherwise (some sample above 1, or all of them 0): grey,
      R = G = B = the sample, opaque. */
  lemma EncodeGrayscaleAt(img: PlanarImage, p: nat, k: nat)
    requires img.depth == 1 && img.spectrum == 1
    requires (exists i :: 0 <= i < |img.samples| && img.samples[i] > 1) ||
             (forall i :: 0 <= i < |img.samples| ==> img.samples[i] == 0)
    requires p < Pixels(img) && k < 4
    ensures Encode(img).Ok? && 4 * p + k < |Encode(img).value.data|
    ensures Encode(img).value.data[4 * p + k] == if k < 3 then Sample(img, p, 0) else 255
  {
    GrayscaleMode(img);
    EncodeAt(img, Grayscale, p, k);
  }

  /** Byte k of pixel p of the surface is byte k of the pixel's colour in
      the image's rendering mode. */
  lemma EncodeAt(img: PlanarImage, mode: ColorMode, p: nat, k: nat)
    requires ModeOf(img) == Ok(mode)
    requires p < Pixels(img) && k < 4
    ensures Encode(img).Ok?
    ensures 4 * p + k < |Encode(img).value.data|
    ensures |img.samples| == Channels(mode) * Pixels(img)
    ensures Encode(img).value.data[4 * p + k] == ColorAt(img.samples, Pixels(img), mode, p).Byte(k)
  {
    RenderAt(img.samples, Pixels(img), mode, p, k);
  }

  /** Byte k of pixel p of a rendering is byte k of the pixel's colour. */
  lemma RenderAt(s: seq<byte>, n: nat, mode: ColorMode, p: nat, k: nat)
    requires |s| == Channels(mode) * n && p < n && k < 4
    ensures 4 * p + k < |Render(s, n, mode)|
    ensures Render(s, n, mode)[4 * p + k] == ColorAt(s, n, mode, p).Byte(k)
  {
    var i := 4 * p + k;
    assert i / 4 == p && i % 4 == k;
  }

  /** Byte k of an RGBA colour is sample k of the pixel's planes. */
  lemma PlaneByte(s: seq<byte>, n: nat, mode: ColorMode, p: nat, k: nat)
    requires mode == Rgba || mode == Rgb
    requires |s| == Channels(mode) * n && p < n && k < Channels(mode)
    ensures p + k * n < |s| && ColorAt(s, n, mode, p).Byte(k) == s[p + k * n]
  {
    PlaneInRange(n, Channels(mode), p, k);
    if k == 0 {
    } else if k == 1 {
    } else if k == 2 {
    } else {
    }
  }

  // ---------------------------------------------------------------------
  // Round trips

  /** A surface of positive size survives `fromImageData` followed by
      `toImageData` unchanged. */
  lemma EncodeDecode(src: ImageData)
    requires |src.data| == 4 * src.width * src.height && src.width > 0 && src.height > 0
    ensures Decode(src).Ok? && Encode(Decode(src).value) == Ok(src)
  {
    var n := src.width * src.height;
    var img := Decode(src).value;
    LayerSize(img);
    assert ModeOf(img) == Ok(Rgba);
    forall q | 0 <= q < n
      ensures PixelOf(src.data, q) == ColorAt(img.samples, n, Rgba, q)
    {
      PlanesAt(src.data, n, q, 0);
      PlanesAt(src.data, n, q, 1);
      PlanesAt(src.data, n, q, 2);
      PlanesAt(src.data, n, q, 3);
    }
    RenderByPixels(src.data, img.samples, n, Rgba);
  }

  /** A one-layer RGBA image survives `toImageData` followed by
      `fromImageData` unchanged. */
  lemma DecodeEncode(img: PlanarImage)
    requires img.depth == 1 && img.spectrum == 4
    ensures Encode(img).Ok? && Decode(Encode(img).value) == Ok(img)
  {
    LayerSize(img);
    var n := Pixels(img);
    assert ModeOf(img) == Ok(Rgba);
    assert 4 * img.width * img.height == 4 * n;
    PlanesOfRender(img.samples, n);
  }

  /** Splitting the rendering of four planes back into planes gives them back. */
  lemma PlanesOfRender(s: seq<byte>, n: nat)
    requires |s| == 4 * n
    ensures Planes(Render(s, n, Rgba), n) == s
  {
    var r := Render(s, n, Rgba);
    ChannelOfRender(s, n, 0);
    assert Channel(r, n, 0) == s[0 .. n];
    ChannelOfRender(s, n, 1);
    assert Channel(r, n, 1) == s[n .. 2 * n];
    ChannelOfRender(s, n, 2);
    assert Channel(r, n, 2) == s[2 * n .. 3 * n];
    ChannelOfRender(s, n, 3);
    assert Channel(r, n, 3) == s[3 * n .. 4 * n];
    Quarters(s, n);
  }

  /** A sequence of 4 * n elements is its four quarters one after another. */
  lemma Quarters(s: seq<byte>, n: nat)
    requires |s| == 4 * n
    ensures s[0 .. n] + s[n .. 2 * n] + s[2 * n .. 3 * n] + s[3 * n .. 4 * n] == s
  {
    Adjacent(s, 0, n, 2 * n);
    Adjacent(s, 0, 2 * n, 3 * n);
    Adjacent(s, 0, 3 * n, 4 * n);
  }

  /** Two adjacent slices of a sequence make up the slice they span. */
  lemma Adjacent(s: seq<byte>, a: nat, b: nat, c: nat)
    requires a <= b <= c <= |s|
    ensures s[a .. b] + s[b .. c] == s[a .. c]
  {
  }

  /** Plane c of a 4-channel image is channel c of its rendering. */
  lemma ChannelOfRender(s: seq<byte>, n: nat, c: nat)
    requires |s| == 4 * n && c < 4
    ensures c * n + n <= |s|
    ensures Channel(Render(s, n, Rgba), n, c) == s[c * n .. c * n + n]
  {
    MulLeft(c + 1, 4, n);
    forall p | 0 <= p < n
      ensures Channel(Render(s, n, Rgba), n, c)[p] == s[c * n + p]
    {
      RenderAt(s, n, Rgba, p, c);
      PlaneByte(s, n, Rgba, p, c);
    }
  }

  /** A surface of zero width or height decodes to the empty image, which
      `toImageData` refuses: the round trip holds only for positive sizes. */
  lemma EmptySurface(src: ImageData)
    requires |src.data| == 0 && (src.width == 0 || src.height == 0)
    ensures Decode(src) == Ok(EmptyImage)
    ensures Encode(EmptyImage) == Err(UnsupportedDepth)
  {
  }
}
