/** The pixel-layout transcoder of bindings.cpp: `fromImageData` turns an
    interleaved RGBA surface into a planar 4-channel image, `toImageData`
    turns a planar image of 1, 3 or 4 channels back into an RGBA surface. */
module Transcoder {
  import opened Samples
  import opened Images

  // ---------------------------------------------------------------------
  // Decoding: interleaved RGBA bytes -> planar image

  /** Channel c of every pixel of an interleaved buffer of n pixels. */
  function Channel(s: seq<byte>, n: nat, c: nat): seq<byte>
    requires |s| == 4 * n && c < 4
  {
    seq(n, p requires 0 <= p < n => s[4 * p + c])
  }

  /** The four channel planes of an interleaved buffer, one after another. */
  function Planes(s: seq<byte>, n: nat): seq<byte>
    requires |s| == 4 * n
  {
    Channel(s, n, 0) + Channel(s, n, 1) + Channel(s, n, 2) + Channel(s, n, 3)
  }

  lemma PlanesAt(s: seq<byte>, n: nat, p: nat, c: nat)
    requires |s| == 4 * n && p < n && c < 4
    ensures |Planes(s, n)| == 4 * n
    ensures Planes(s, n)[p + c * n] == s[4 * p + c]
  {
    if c == 0 {
    } else if c == 1 {
    } else if c == 2 {
    } else {
    }
  }

  /** What `fromImageData` makes of a surface: a width x height x 1 x 4 image
      (the empty image when width or height is 0), or the failed assertion. */
  function Decode(src: ImageData): Result<PlanarImage> {
    var w, h := src.width, src.height;
    if |src.data| != 4 * w * h then Err(ShapeMismatch)
    else if w == 0 || h == 0 then Ok(EmptyImage)
    else Ok(Planar(w, h, 1, 4, Planes(src.data, w * h)))
  }

  // ---------------------------------------------------------------------
  // Encoding: planar image -> interleaved RGBA bytes

  /** How `toImageData` renders an image, chosen once from its spectrum and
      (for one channel) its largest sample. */
  datatype ColorMode = Rgba | Rgb | Binary | Grayscale

  /** Channels an image rendered in a mode has. */
  function Channels(mode: ColorMode): nat {
    match mode
    case Rgba => 4
    case Rgb => 3
    case Binary => 1
    case Grayscale => 1
  }

  function ModeOf(img: PlanarImage): (r: Result<ColorMode>)
    ensures r.Ok? ==> img.depth == 1 && img.spectrum == Channels(r.value)
    ensures r.Ok? ==> |img.samples| == Channels(r.value) * Pixels(img)
  {
    if img.depth != 1 then Err(UnsupportedDepth)
    else
      LayerSize(img);
      if img.spectrum == 4 then Ok(Rgba)
      else if img.spectrum == 3 then Ok(Rgb)
      else if img.spectrum != 1 then Err(UnsupportedSpectrum)
      else if MaxSample(img.samples) == 1 then Ok(Binary)
      else Ok(Grayscale)
  }

  /** An RGBA pixel of a surface. */
  datatype Color = Color(r: byte, g: byte, b: byte, a: byte) {
    /** Byte k of the pixel in the surface's R, G, B, A order. */
    function Byte(k: nat): byte
      requires k < 4
    {
      if k == 0 then r else if k == 1 then g else if k == 2 then b else a
    }
  }

  /** The colour `toImageData` gives pixel p of an image whose channel planes
      of n pixels each are s. */
  function ColorAt(s: seq<byte>, n: nat, mode: ColorMode, p: nat): Color
    requires |s| == Channels(mode) * n && p < n
  {
    match mode
    case Rgba => Color(s[p], s[p + n], s[p + 2 * n], s[p + 3 * n])
    case Rgb => Color(s[p], s[p + n], s[p + 2 * n], 255)
    case Binary => if s[p] != 0 then Color(255, 0, 0, 255) else Color(0, 0, 0, 255)
    case Grayscale => Color(s[p], s[p], s[p], 255)
  }

  /** The rendered pixels, four bytes each, row-major. */
  function Render(s: seq<byte>, n: nat, mode: ColorMode): seq<byte>
    requires |s| == Channels(mode) * n
  {
    seq(4 * n, i requires 0 <= i < 4 * n => ColorAt(s, n, mode, i / 4).Byte(i % 4))
  }

  /** Pixel q of an interleaved buffer. */
  function PixelOf(buf: seq<byte>, q: nat): Color
    requires 4 * q + 3 < |buf|
  {
    Color(buf[4 * q], buf[4 * q + 1], buf[4 * q + 2], buf[4 * q + 3])
  }

  /** A buffer whose every pixel has its rendered colour is the rendering. */
  lemma RenderByPixels(buf: seq<byte>, s: seq<byte>, n: nat, mode: ColorMode)
    requires |s| == Channels(mode) * n && |buf| == 4 * n
    requires forall q :: 0 <= q < n ==> PixelOf(buf, q) == ColorAt(s, n, mode, q)
    ensures buf == Render(s, n, mode)
  {
    forall i | 0 <= i < |buf|
      ensures buf[i] == Render(s, n, mode)[i]
    {
      assert PixelOf(buf, i / 4) == ColorAt(s, n, mode, i / 4);
    }
  }

  /** What `toImageData` makes of an image: a surface of its width and height,
      or the failed assertion. */
  function Encode(img: PlanarImage): Result<ImageData> {
    match ModeOf(img)
    case Err(e) => Err(e)
    case Ok(mode) => Ok(ImageData(Render(img.samples, Pixels(img), mode), img.width, img.height))
  }

  // ---------------------------------------------------------------------
  // The bindings' two conversion routines

  /** `fromImageData(image, imageData)`: reallocates `image` and fills it
      channel by channel, row by row, pixel by pixel. */
  method FromImageData(image: Image, src: ImageData) returns (r: Outcome)
    modifies image
    ensures r.Pass? <==> Decode(src).Ok?
    ensures r.Pass? ==> image.Valid() && image.Value() == Decode(src).value
    ensures r.Fail? ==> r.error == Decode(src).error && unchanged(image)
  {
    var width, height := src.width, src.height;
    if |src.data| != 4 * width * height {
      return Fail(ShapeMismatch);
    }
    image.Assign(width, height, 1, 4);
    if image.width != 0 {
      FillPlanes(image.data, src.data, width, height);
    }
    return Pass;
  }

  /** The `cimg_forXYC` loop of `fromImageData`: sample (x, y, 0, c) of a
      width x height x 1 x 4 image, at offset x + y * W + c * W * H of its
      storage, gets byte 4 * (x + y * W) + c of the surface. */
  method FillPlanes(a: array<byte>, s: seq<byte>, W: nat, H: nat)
    requires |s| == 4 * (W * H) && a.Length == 4 * (W * H)
    modifies a
    ensures a[..] == Planes(s, W * H)
  {
    var n := W * H;
    ghost var planes := Planes(s, n);
    ghost var k := 0;  // offset of the next sample, x + y * W + c * n
    for c := 0 to 4
      invariant k == c * n
      invariant k <= a.Length
      invariant forall i :: 0 <= i < k ==> a[i] == planes[i]
    {
      for y := 0 to H
        invariant k == y * W + c * n
        invariant k <= a.Length
        invariant forall i :: 0 <= i < k ==> a[i] == planes[i]
      {
        for x := 0 to W
          invariant k == x + y * W + c * n
          invariant k <= a.Length
          invariant forall i :: 0 <= i < k ==> a[i] == planes[i]
        {
          PixelInRange(W, H, x, y);
          FillSample(a, s, n, x + y * W, c);
          k := k + 1;
        }
        assert (y + 1) * W == y * W + W;
      }
      assert (c + 1) * n == c * n + H * W;
    }
    assert a[..] == planes;
  }

  /** The body of the `fromImageData` loop for sample c of pixel p = x + y * W. */
  method FillSample(a: array<byte>, s: seq<byte>, n: nat, p: nat, c: nat)
    requires |s| == 4 * n && a.Length == 4 * n && p < n && c < 4
    modifies a
    ensures p + c * n < a.Length && a[p + c * n] == Planes(s, n)[p + c * n]
    ensures forall i :: 0 <= i < a.Length && i != p + c * n ==> a[i] == old(a[i])
  {
    PlaneInRange(n, 4, p, c);
    PlanesAt(s, n, p, c);
    a[p + c * n] := s[4 * p + c];
  }

  /** `toImageData(image)`: writes a fresh 4 * width * height byte buffer by
      index, with one loop per rendering rule. */
  method ToImageData(image: Image) returns (r: Result<ImageData>)
    requires image.Valid()
    ensures r == Encode(image.Value())
  {
    var width, height := image.width, image.height;
    if image.depth != 1 {
      return Err(UnsupportedDepth);
    }
    LayerSize(image.Value());
    var imageData := new byte[4 * (width * height)];
    if image.spectrum == 4 {
      WriteRgba(image.data, width, height, imageData);
    } else if image.spectrum == 3 {
      WriteRgb(image.data, width, height, imageData);
    } else {
      if image.spectrum != 1 {
        return Err(UnsupportedSpectrum);
      }
      var maxValue := MaxSample(image.data[..]);
      if maxValue == 1 {
        WriteBinary(image.data, width, height, imageData);
      } else {
        WriteGrayscale(image.data, width, height, imageData);
      }
    }
    r := Ok(ImageData(imageData[..], width, height));
  }

  // The loops of `toImageData`. Each reads the channel planes `a` of a
  // width x height image and writes the interleaved buffer `imageData`.

  /** The pixel whose bytes below m come from `after` and the others from
      `before`: what the spectrum-4 loop has made of a pixel after m channels. */
  function Blend(before: Color, after: Color, m: nat): Color {
    Color(if 0 < m then after.r else before.r,
          if 1 < m then after.g else before.g,
          if 2 < m then after.b else before.b,
          if 3 < m then after.a else before.a)
  }

  /** A pixel with its byte c replaced by v. */
  function WithByte(col: Color, c: nat, v: byte): Color
    requires c < 4
  {
    if c == 0 then col.(r := v)
    else if c == 1 then col.(g := v)
    else if c == 2 then col.(b := v)
    else col.(a := v)
  }

  /** Spectrum 4, channel by channel: byte 4 * (x + y * W) + c is sample
      (x, y, 0, c). */
  method WriteRgba(a: array<byte>, width: nat, height: nat, imageData: array<byte>)
    requires a.Length == 4 * (width * height) && imageData.Length == 4 * (width * height)
    requires a != imageData
    modifies imageData
    ensures imageData[..] == Render(a[..], width * height, Rgba)
  {
    var n := width * height;
    ghost var s := a[..];
    ghost var orig := imageData[..];
    for c := 0 to 4
      invariant forall q :: 0 <= q < n ==>
        PixelOf(imageData[..], q) == Blend(PixelOf(orig, q), ColorAt(s, n, Rgba, q), c)
    {
      WriteRgbaChannel(a, width, height, imageData, c, orig);
    }
    RenderByPixels(imageData[..], s, n, Rgba);
  }

  /** Channel c of the spectrum-4 loop: every pixel gets its byte c. */
  method WriteRgbaChannel(a: array<byte>, width: nat, height: nat, imageData: array<byte>, c: nat,
                          ghost orig: seq<byte>)
    requires a.Length == 4 * (width * height) && imageData.Length == 4 * (width * height)
    requires |orig| == 4 * (width * height)
    requires a != imageData && c < 4
    requires forall q :: 0 <= q < width * height ==>
      PixelOf(imageData[..], q) == Blend(PixelOf(orig, q), ColorAt(a[..], width * height, Rgba, q), c)
    modifies imageData
    ensures forall q :: 0 <= q < width * height ==>
      PixelOf(imageData[..], q) == Blend(PixelOf(orig, q), ColorAt(a[..], width * height, Rgba, q), c + 1)
  {
    var n := width * height;
    ghost var s := a[..];
    ghost var k := 0;  // pixels done, x + y * width
    for y := 0 to height
      invariant k == y * width && k <= n
      invariant forall q :: 0 <= q < n ==>
        PixelOf(imageData[..], q) == Blend(PixelOf(orig, q), ColorAt(s, n, Rgba, q), if q < k then c + 1 else c)
    {
      for x := 0 to width
        invariant k == x + y * width && k <= n
        invariant forall q :: 0 <= q < n ==>
          PixelOf(imageData[..], q) == Blend(PixelOf(orig, q), ColorAt(s, n, Rgba, q), if q < k then c + 1 else c)
      {
        PixelInRange(width, height, x, y);
        WriteRgbaSample(a, n, imageData, x + y * width, c);
        k := k + 1;
      }
    }
  }

  /** The body of the spectrum-4 loop for sample c of pixel p = x + y * W. */
  method WriteRgbaSample(a: array<byte>, n: nat, imageData: array<byte>, p: nat, c: nat)
    requires a.Length == 4 * n && imageData.Length == 4 * n && p < n && c < 4
    requires a != imageData
    modifies imageData
    ensures PixelOf(imageData[..], p) ==
      WithByte(PixelOf(old(imageData[..]), p), c, ColorAt(a[..], n, Rgba, p).Byte(c))
    ensures forall q :: 0 <= q < n && q != p ==> PixelOf(imageData[..], q) == PixelOf(old(imageData[..]), q)
  {
    imageData[4 * p + c] := a[p + c * n];
  }

  /** Spectrum 3: channels 0, 1, 2 into R, G, B and an opaque alpha. */
  method WriteRgb(a: array<byte>, width: nat, height: nat, imageData: array<byte>)
    requires a.Length == 3 * (width * height) && imageData.Length == 4 * (width * height)
    requires a != imageData
    modifies imageData
    ensures imageData[..] == Render(a[..], width * height, Rgb)
  {
    var n := width * height;
    ghost var s := a[..];
    ghost var k := 0;  // pixels done, x + y * width
    for y := 0 to height
      invariant k == y * width && k <= n
      invariant forall q :: 0 <= q < k ==> PixelOf(imageData[..], q) == ColorAt(s, n, Rgb, q)
    {
      for x := 0 to width
        invariant k == x + y * width && k <= n
        invariant forall q :: 0 <= q < k ==> PixelOf(imageData[..], q) == ColorAt(s, n, Rgb, q)
      {
        PixelInRange(width, height, x, y);
        WriteRgbPixel(a, n, imageData, x + y * width);
        k := k + 1;
      }
      assert (y + 1) * width == y * width + width;
    }
    RenderByPixels(imageData[..], s, n, Rgb);
  }

  /** The body of the spectrum-3 loop for pixel p = x + y * W. */
  method WriteRgbPixel(a: array<byte>, n: nat, imageData: array<byte>, p: nat)
    requires a.Length == 3 * n && imageData.Length == 4 * n && p < n
    requires a != imageData
    modifies imageData
    ensures PixelOf(imageData[..], p) == ColorAt(a[..], n, Rgb, p)
    ensures forall q :: 0 <= q < n && q != p ==> PixelOf(imageData[..], q) == PixelOf(old(imageData[..]), q)
  {
    imageData[4 * p + 0] := a[p];
    imageData[4 * p + 1] := a[p + n];
    imageData[4 * p + 2] := a[p + 2 * n];
    imageData[4 * p + 3] := 255;
  }

  /** Spectrum 1 with maximum 1: a set sample becomes opaque red, a clear
      one opaque black. */
  method WriteBinary(a: array<byte>, width: nat, height: nat, imageData: array<byte>)
    requires a.Length == width * height && imageData.Length == 4 * (width * height)
    requires a != imageData
    modifies imageData
    ensures imageData[..] == Render(a[..], width * height, Binary)
  {
    var n := width * height;
    ghost var s := a[..];
    ghost var k := 0;  // pixels done, x + y * width
    for y := 0 to height
      invariant k == y * width && k <= n
      invariant forall q :: 0 <= q < k ==> PixelOf(imageData[..], q) == ColorAt(s, n, Binary, q)
    {
      for x := 0 to width
        invariant k == x + y * width && k <= n
        invariant forall q :: 0 <= q < k ==> PixelOf(imageData[..], q) == ColorAt(s, n, Binary, q)
      {
        PixelInRange(width, height, x, y);
        WriteBinaryPixel(a, n, imageData, x + y * width);
        k := k + 1;
      }
      assert (y + 1) * width == y * width + width;
    }
    RenderByPixels(imageData[..], s, n, Binary);
  }

  /** The body of the binary loop for pixel p = x + y * W. */
  method WriteBinaryPixel(a: array<byte>, n: nat, imageData: array<byte>, p: nat)
    requires a.Length == n && imageData.Length == 4 * n && p < n
    requires a != imageData
    modifies imageData
    ensures PixelOf(imageData[..], p) == ColorAt(a[..], n, Binary, p)
    ensures forall q :: 0 <= q < n && q != p ==> PixelOf(imageData[..], q) == PixelOf(old(imageData[..]), q)
  {
    if a[p] != 0 {
      imageData[4 * p + 0] := 255;
      imageData[4 * p + 1] := 0;
      imageData[4 * p + 2] := 0;
    } else {
      imageData[4 * p + 0] := 0;
      imageData[4 * p + 1] := 0;
      imageData[4 * p + 2] := 0;
    }
    imageData[4 * p + 3] := 255;
  }

  /** Spectrum 1 otherwise: grey, R = G = B = the sample, opaque. */
  method WriteGrayscale(a: array<byte>, width: nat, height: nat, imageData: array<byte>)
    requires a.Length == width * height && imageData.Length == 4 * (width * height)
    requires a != imageData
    modifies imageData
    ensures imageData[..] == Render(a[..], width * height, Grayscale)
  {
    var n := width * height;
    ghost var s := a[..];
    ghost var k := 0;  // pixels done, x + y * width
    for y := 0 to height
      invariant k == y * width && k <= n
      invariant forall q :: 0 <= q < k ==> PixelOf(imageData[..], q) == ColorAt(s, n, Grayscale, q)
    {
      for x := 0 to width
        invariant k == x + y * width && k <= n
        invariant forall q :: 0 <= q < k ==> PixelOf(imageData[..], q) == ColorAt(s, n, Grayscale, q)
      {
        PixelInRange(width, height, x, y);
        WriteGrayscalePixel(a, n, imageData, x + y * width);
        k := k + 1;
      }
      assert (y + 1) * width == y * width + width;
    }
    RenderByPixels(imageData[..], s, n, Grayscale);
  }

  /** The body of the grayscale loop for pixel p = x + y * W. */
  method WriteGrayscalePixel(a: array<byte>, n: nat, imageData: array<byte>, p: nat)
    requires a.Length == n && imageData.Length == 4 * n && p < n
    requires a != imageData
    modifies imageData
    ensures PixelOf(imageData[..], p) == ColorAt(a[..], n, Grayscale, p)
    ensures forall q :: 0 <= q < n && q != p ==> PixelOf(imageData[..], q) == PixelOf(old(imageData[..]), q)
  {
    var value := a[p];
    imageData[4 * p + 0] := value;
    imageData[4 * p + 1] := value;
    imageData[4 * p + 2] := value;
    imageData[4 * p + 3] := 255;
  }

}
