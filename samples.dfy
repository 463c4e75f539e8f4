/** Values that cross the boundary between the host page and the image code:
    bytes, the canvas-style ImageData surface, and the error outcomes that
    the bindings' assertions and the external engines can produce. */
module Samples {

  /** An `unsigned char` sample. */
  type byte = x: int | 0 <= x < 256

  /** A canvas ImageData: interleaved RGBA bytes, row-major, plus its size. */
  datatype ImageData = ImageData(data: seq<byte>, width: nat, height: nat)

  /** Why a call ends without a result. Four are the bindings' own
      `assert`s, each of which aborts the call. MissingName stands for a read
      of `image_names` past its end, which the bindings do not guard. The
      last one is an exception thrown by the external inpainting operation,
      which nothing catches. */
  datatype Error =
    | ShapeMismatch        // fromImageData: data length is not 4 * width * height
    | UnsupportedDepth     // toImageData: depth is not 1
    | UnsupportedSpectrum  // toImageData: spectrum is not 1, 3 or 4
    | LengthMismatch       // gmicjs: different numbers of images and names
    | MissingName          // gmicjs: the engine left fewer names than images
    | InpaintFailure       // inpaint_patch threw

  datatype Result<+T> = Ok(value: T) | Err(error: Error)

  datatype Outcome = Pass | Fail(error: Error)

  datatype Option<+T> = None | Some(value: T)
}
