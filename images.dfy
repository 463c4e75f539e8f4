/** The planar image of the processing library (a `CImg<unsigned char>`):
    width x height x depth x spectrum samples stored channel plane after
    channel plane, so that sample (x, y, 0, c) of a one-layer image sits at
    offset x + y * width + c * width * height. */
module Images {
  import opened Samples

  datatype Planar = Planar(width: nat, height: nat, depth: nat, spectrum: nat, samples: seq<byte>)

  /** Assumed of the library, whose code is not part of this model: it keeps
      one shape for "no image", so an image with any zero dimension has all
      four dimensions zero. */
  predicate WellFormed(p: Planar) {
    |p.samples| == p.width * p.height * p.depth * p.spectrum &&
    (p.width == 0 || p.height == 0 || p.depth == 0 || p.spectrum == 0 ==>
       p.width == 0 && p.height == 0 && p.depth == 0 && p.spectrum == 0)
  }

  type PlanarImage = p: Planar | WellFormed(p) witness Planar(0, 0, 0, 0, [])

  const EmptyImage: PlanarImage := Planar(0, 0, 0, 0, [])

  /** The dimensions an image gets when it is (re)allocated as w x h x d x s. */
  function Shape(w: nat, h: nat, d: nat, s: nat): (nat, nat, nat, nat) {
    if w == 0 || h == 0 || d == 0 || s == 0 then (0, 0, 0, 0) else (w, h, d, s)
  }

  /** Number of pixels of one layer. */
  function Pixels(img: Planar): nat {
    img.width * img.height
  }

  lemma MulLeft(a: nat, b: nat, n: nat)
    requires a <= b
    ensures a * n <= b * n
  {
    var k := b - a;
    assert b * n == a * n + k * n;
  }

  /** Pixel (x, y) of a w x h layer has a linear index below w * h. */
  lemma PixelInRange(w: nat, h: nat, x: nat, y: nat)
    requires x < w && y < h
    ensures x + y * w < w * h
  {
    MulLeft(y + 1, h, w);
  }

  /** Pixel p of channel plane c lies inside an image of s planes of n pixels. */
  lemma PlaneInRange(n: nat, s: nat, p: nat, c: nat)
    requires p < n && c < s
    ensures p + c * n < s * n
  {
    MulLeft(c + 1, s, n);
  }

  /** A one-layer image is never empty: its samples are its channel planes. */
  lemma LayerSize(img: PlanarImage)
    requires img.depth == 1
    ensures img.width > 0 && img.height > 0 && img.spectrum > 0
    ensures Pixels(img) > 0 && |img.samples| == img.spectrum * Pixels(img)
  {
    MulLeft(1, img.width, img.height);
  }

  /** Sample c of pixel p (p = x + y * width) of a one-layer image. */
  function Sample(img: PlanarImage, p: nat, c: nat): byte
    requires img.depth == 1 && p < Pixels(img) && c < img.spectrum
  {
    PlaneInRange(Pixels(img), img.spectrum, p, c);
    img.samples[p + c * Pixels(img)]
  }

  /** The largest sample of a non-empty sequence (the library's max()). */
  function MaxSample(s: seq<byte>): (m: byte)
    requires |s| > 0
    ensures m in s
    ensures forall i :: 0 <= i < |s| ==> s[i] <= m
  {
    if |s| == 1 then s[0]
    else
      var rest := MaxSample(s[1..]);
      assert forall i :: 1 <= i < |s| ==> s[i] == s[1..][i - 1];
      if s[0] >= rest then s[0] else rest
  }

  /** The image the constructor CImg(w, h, d, s, v) builds. */
  function FilledImage(w: nat, h: nat, d: nat, s: nat, v: byte): (img: PlanarImage)
    ensures (img.width, img.height, img.depth, img.spectrum) == Shape(w, h, d, s)
    ensures forall i :: 0 <= i < |img.samples| ==> img.samples[i] == v
  {
    if w == 0 || h == 0 || d == 0 || s == 0 then EmptyImage
    else Planar(w, h, d, s, seq(w * h * d * s, _ => v))
  }

  /** An image object whose storage is updated in place. */
  class Image {
    var width: nat
    var height: nat
    var depth: nat
    var spectrum: nat
    var data: array<byte>

    ghost predicate Valid()
      reads this, data
    {
      WellFormed(Planar(width, height, depth, spectrum, data[..]))
    }

    /** The image as a value. */
    function Value(): PlanarImage
      reads this, data
      requires Valid()
    {
      Planar(width, height, depth, spectrum, data[..])
    }

    /** `CImg<T> image;`: the empty image. */
    constructor ()
      ensures Valid() && fresh(data)
      ensures Value() == EmptyImage
    {
      width, height, depth, spectrum := 0, 0, 0, 0;
      data := new byte[0];
    }

    /** `CImg<T> image(w, h, d, s, v);`: every sample set to v. */
    constructor Filled(w: nat, h: nat, d: nat, s: nat, v: byte)
      ensures Valid() && fresh(data)
      ensures Value() == FilledImage(w, h, d, s, v)
    {
      if w == 0 || h == 0 || d == 0 || s == 0 {
        width, height, depth, spectrum := 0, 0, 0, 0;
        data := new byte[0];
      } else {
        width, height, depth, spectrum := w, h, d, s;
        data := new byte[w * h * d * s](_ => v);
      }
    }

    /** An image object holding a given value. */
    constructor FromValue(v: PlanarImage)
      ensures Valid() && fresh(data)
      ensures Value() == v
    {
      width, height, depth, spectrum := v.width, v.height, v.depth, v.spectrum;
      data := new byte[|v.samples|](i requires 0 <= i < |v.samples| => v.samples[i]);
    }

    /** `image.assign(w, h, d, s)`: reallocate to a new shape; the samples
        are left uninitialised, so nothing is promised about them. */
    method Assign(w: nat, h: nat, d: nat, s: nat)
      modifies this
      ensures Valid() && fresh(data)
      ensures (width, height, depth, spectrum) == Shape(w, h, d, s)
    {
      if w == 0 || h == 0 || d == 0 || s == 0 {
        width, height, depth, spectrum := 0, 0, 0, 0;
        data := new byte[0];
      } else {
        width, height, depth, spectrum := w, h, d, s;
        data := new byte[w * h * d * s];
      }
    }

    /** Replace the whole image by v, as an external operation that works
        on the object in place does. */
    method Load(v: PlanarImage)
      modifies this
      ensures Valid() && fresh(data)
      ensures Value() == v
    {
      width, height, depth, spectrum := v.width, v.height, v.depth, v.spectrum;
      data := new byte[|v.samples|](i requires 0 <= i < |v.samples| => v.samples[i]);
    }
  }
}
