# Canvas bindings for an image-inpainting library

This project models the C++ bindings through which a web page uses a planar image library and its patch-based inpainting. The bindings do three things:

- **Transcoding.** `fromImageData` turns a canvas `ImageData` into an image with one plane per channel. The canvas holds interleaved RGBA bytes, row-major. `toImageData` turns a one-layer image back into RGBA bytes. A 4-channel image is copied as it is. A 3-channel image gets alpha 255. A 1-channel image becomes red/black when its largest sample is 1, and grey otherwise.
- **`inpaintPipeline`.** It decodes a photo and a drawn overlay, and builds a 0/1 mask of the overlay's pure-red pixels. It dilates that mask, inpaints the photo and encodes the result.
- **`gmicjs`.** This is a marshalling shell around the G'MIC interpreter. It checks that there are as many surfaces as names and decodes every surface. It runs the interpreter, which may rewrite the lists and may throw. A throw is logged and ignored. Finally it encodes whatever images the list then holds, image i paired with name i.

## Layout

- `samples.dfy`: bytes, the `ImageData` surface, error kinds and the `Result`/`Option` wrappers.
- `images.dfy`: the planar image as a value (`PlanarImage`) and as an object updated in place (`Image`, with an array of samples).
- `transcoder.dfy` and `transcoder_laws.dfy`: the two conversions and their properties.
- `inpaint.dfy` and `inpaint_laws.dfy`: the inpainting pipeline, the red mask, and the finding about which mask is used.
- `gmic.dfy` and `gmic_laws.dfy`: the `gmicjs` shell and its properties.

## How the model works

- **The imperative code stays imperative.** Each routine of the bindings is a method over arrays and `Image` objects, with loops that carry invariants. Each method is proved equal to a specification function: `Decode`, `Encode`, `RedMask`, `InpaintResult`, `GmicResult`. The lemmas state the properties of those functions.
- **Asserts become errors.** Every C `assert` in the bindings aborts the call. It is modelled as an error result (`Err`/`Fail`), not as a precondition.
- **Collaborators are parameters.** The library's `dilate` and `inpaint_patch` and the G'MIC interpreter are function-typed parameters. An inpainting failure is `None`. An interpreter run returns the lists it leaves and whether it threw.
- **Empty images (an assumption about library code that is not shown).** The model assumes that the library's `assign` and its sized constructor keep one shape for the empty image: any zero dimension makes all four dimensions zero. `bindings.cpp` does not show this. Its consequence is that a surface of zero width or height decodes to the empty image, and encoding that image fails on the depth assertion. `TranscoderLaws.EmptySurface` and the empty case of `InpaintLaws.KeepPhoto` rest on this assumption.

## Where the code departs from its own comments

The model follows the code.

1. **Which mask is inpainted.** The comments at `bindings.cpp:151` and `bindings.cpp:156` say the red mask is built, and then dilated because a drawn line may not be exactly (255, 0, 0). That mask is evidently meant to guide the inpainting. Yet `bindings.cpp:160` passes the raw overlay `mask` to `inpaint_patch`, and the derived and dilated mask is never read again. See "Findings".
2. **What a throwing interpreter leaves behind.** After the handler at `bindings.cpp:118-122`, the output loop encodes whatever `image_list` holds, in whatever state the interpreter left it. In `GmicShell.Gmic`, the interpreter's result (`EngineRun`) carries the lists in that state. The throw flag plays no part in the result (`GmicLaws.ThrowSwallowed`).

## Model

The rows below refer to the model's reference definitions: `Decode(src)` is `Transcoder.Decode` and `Encode(img)` is `Transcoder.Encode`. The functions `InpaintResult`, `InpaintResultIntended` and `GmicResult` are `Inpaint.InpaintResult`, `Inpaint.InpaintResultIntended` and `GmicShell.GmicResult`. Their properties are the lemmas listed below.

| member | source | states |
|---|---|---|
| Images.MaxSample | bindings.cpp:52 | `image.max()`: the result is one of the samples, and no sample is larger. |
| Images.FilledImage | bindings.cpp:152 | The image `CImg(w, h, d, s, v)` builds: the shape w×h×d×s, empty when a dimension is 0, with every sample equal to v. |
| Images.Image.Filled | bindings.cpp:152 | `binaryMask(mask.width(), mask.height(), 1, 1, 0)` allocates fresh storage holding `FilledImage(w, h, d, s, v)`. |
| Images.Image.Assign | bindings.cpp:23 | `image.assign(width, height, 1, 4)` reallocates the image to that shape, or to the empty shape when a dimension is 0; the samples are left unspecified. |
| Images.Image.constructor | bindings.cpp:145-148 | `CImg<unsigned char> image;` and `mask;` start as the empty image. |
| Images.Image.FromValue | bindings.cpp:132 | Glue for handing a list element to `toImageData`: fresh storage holding exactly the given image. |
| Images.Image.Load | bindings.cpp:157-160 | The in-place results of `dilate` and `inpaint_patch`: afterwards the object holds exactly the given image. |
| Transcoder.FromImageData | bindings.cpp:17-28 | It succeeds exactly when the data has 4·width·height bytes; otherwise it fails with the shape error and leaves the image unchanged. On success the image object holds `Decode(src)`. |
| Transcoder.FillPlanes | bindings.cpp:24-26 | The `cimg_forXYC` loop leaves the sample array equal to the four channel planes of the interleaved data. |
| Transcoder.FillSample | bindings.cpp:25 | Sample (x, y, c) gets byte 4·(x + y·width) + c of the data, and no other sample changes. |
| Transcoder.ToImageData | bindings.cpp:29-83 | The bytes written equal `Encode` of the image. This covers the depth and spectrum asserts as errors and the three spectrum branches. |
| Transcoder.WriteRgba | bindings.cpp:35-39 | The whole buffer equals the RGBA rendering of the four planes. |
| Transcoder.WriteRgbaChannel | bindings.cpp:37-38 | One channel pass of the `cimg_forXYC` loop sets byte c of every pixel, and leaves the other channels as they were. |
| Transcoder.WriteRgbaSample | bindings.cpp:38 | Byte c of pixel p is set from plane c, and every other pixel is untouched. |
| Transcoder.WriteRgb | bindings.cpp:40-47 | The whole buffer equals the RGB rendering: channels 0..2, alpha 255. |
| Transcoder.WriteRgbPixel | bindings.cpp:43-46 | Pixel p becomes (R, G, B, 255) from the three planes, and other pixels are untouched. |
| Transcoder.WriteBinary | bindings.cpp:53-66 | The whole buffer equals the binary rendering. |
| Transcoder.WriteBinaryPixel | bindings.cpp:56-65 | A nonzero pixel becomes (255,0,0,255) and a zero pixel (0,0,0,255); other pixels are untouched. |
| Transcoder.WriteGrayscale | bindings.cpp:67-75 | The whole buffer equals the grey rendering. |
| Transcoder.WriteGrayscalePixel | bindings.cpp:70-74 | Pixel p becomes (v, v, v, 255), and other pixels are untouched. |
| Transcoder.ModeOf | bindings.cpp:33-53 | When the branch chosen is known, the image has depth 1, the branch's channel count, and that many planes of width·height samples. |
| Transcoder.PlanesAt | bindings.cpp:25 | Plane sample p + c·n is interleaved byte 4·p + c. |
| Transcoder.RenderByPixels | bindings.cpp:34 | A buffer of 4·n bytes whose every pixel has the rendered colour is the rendering. |
| TranscoderLaws.DecodeShape | bindings.cpp:20-23 | Decoding succeeds iff the length is 4·width·height; the only error is the shape error. A success has the given width and height, depth 1 and 4 channels, or is the empty image when a dimension is 0. |
| TranscoderLaws.DecodeAt | bindings.cpp:24-26 | Decoded sample (x, y, c) equals data[4·(x + y·width) + c] for every x < W, y < H, c < 4. |
| TranscoderLaws.EncodeShape | bindings.cpp:31-34 | Encoding fails iff depth ≠ 1 or spectrum ∉ {1, 3, 4}, with the depth error taking precedence. A success has the image's width and height, exactly 4·W·H bytes, and positive size. |
| TranscoderLaws.EncodeRgbaAt | bindings.cpp:35-39 | With 4 channels, byte 4·p + c is sample c of pixel p. |
| TranscoderLaws.EncodeRgbAt | bindings.cpp:40-47 | With 3 channels, bytes 0..2 of pixel p are its samples and byte 3 is 255. |
| TranscoderLaws.MaxIsOne | bindings.cpp:52-53 | The largest sample is 1 iff every sample is at most 1 and some sample is 1. |
| TranscoderLaws.BinaryMode | bindings.cpp:51-54 | A one-channel image whose samples are all at most 1, with at least one equal to 1, takes the binary branch. |
| TranscoderLaws.GrayscaleMode | bindings.cpp:51-68 | A one-channel image with some sample above 1, or with all samples 0, takes the grey branch. |
| TranscoderLaws.EncodeBinaryAt | bindings.cpp:55-66 | In the binary branch, byte 0 of pixel p is 255 when its sample is nonzero and 0 otherwise; bytes 1 and 2 are 0 and byte 3 is 255. |
| TranscoderLaws.EncodeGrayscaleAt | bindings.cpp:69-75 | In the grey branch, bytes 0..2 of pixel p are its sample v and byte 3 is 255. |
| TranscoderLaws.EncodeAt | bindings.cpp:34-77 | Whenever a branch is taken, byte 4·p + k is byte k of that branch's colour for pixel p. |
| TranscoderLaws.EncodeDecode | bindings.cpp:17-39 | Decoding a surface of positive size and encoding it again gives back the same surface, byte for byte. |
| TranscoderLaws.DecodeEncode | bindings.cpp:17-39 | Encoding a one-layer 4-channel image and decoding the bytes gives back the same image. |
| TranscoderLaws.PlanesOfRender | bindings.cpp:24-39 | Splitting an RGBA rendering back into planes gives the original planes. |
| TranscoderLaws.ChannelOfRender | bindings.cpp:25-38 | Channel c of the rendering of four planes is plane c. |
| TranscoderLaws.EmptySurface | bindings.cpp:22-33 | A surface with no pixels decodes to the empty image, which cannot be encoded (depth error). |
| Inpaint.RedMask | bindings.cpp:152-155 | The derived mask has the overlay\'s width and height, depth 1 and one channel, or is the empty image when the overlay is empty. |
| Inpaint.DecodedOverlay | bindings.cpp:146-149 | Whatever `fromImageData` produces is either a one-layer RGBA image or the empty image. |
| Inpaint.BuildRedMask | bindings.cpp:152-155 | A fresh image allocated as W×H×1×1, filled with 0 and then filled by the loop, equals `RedMask` of the overlay. |
| Inpaint.FillRedMask | bindings.cpp:153-155 | The `cimg_forXY` loop leaves, at every pixel, 1 if the overlay is (255, 0, 0) there and 0 otherwise. |
| Inpaint.InpaintPipeline | bindings.cpp:143-164 | The pipeline as written returns `InpaintResult`, which inpaints with the decoded overlay. An invalid input ends the call with its error; a thrown inpainting failure ends it too. |
| Inpaint.InpaintPipelineIntended | bindings.cpp:143-164 | The same pipeline, handing the dilated red mask to the inpainter, returns `InpaintResultIntended`. |
| InpaintLaws.RedMaskAt | bindings.cpp:152-155 | A mask pixel is 1 iff the overlay's R, G, B there are 255, 0, 0, and 0 otherwise. |
| InpaintLaws.RedMaskOfSurface | bindings.cpp:146-155 | The same, read off the overlay's interleaved bytes at pixel (x, y); alpha does not matter. |
| InpaintLaws.NearRedIsNotMasked | bindings.cpp:154-156 | (254,0,0) and (255,1,0) give mask 0, while (255,0,0) with alpha 0 gives 1. |
| InpaintLaws.InpaintOutcome | bindings.cpp:143-164 | The result is an image iff both surfaces decode and the inpainter returns an image that can be encoded. That image has the inpainted size and 4·W·H bytes. A photo of wrong length gives the shape error, and so does an overlay of wrong length. |
| InpaintLaws.KeepPhoto | bindings.cpp:143-164 | With an inpainter that keeps the photo, both pipelines return the photo's surface unchanged, whatever overlay of the right length and whatever dilation. An empty photo gives the depth error. |
| InpaintLaws.AsWrittenGetsOverlay | bindings.cpp:160 | As written, an inpainter returning the mask it receives makes the pipeline return the overlay's own surface. |
| InpaintLaws.AsWrittenDependsOnOverlay | bindings.cpp:152-160 | Two overlays with the same red mask give different results as written, so the derived mask is not what decides the output. |
| InpaintLaws.IntendedDependsOnlyOnRedMask | bindings.cpp:152-160 | With the derived mask handed over, overlays with equal red masks give equal results. |
| GmicShell.CString | bindings.cpp:107-127 | A name read as a C string is the prefix of the name up to its first NUL and holds no NUL. |
| GmicShell.NameList | bindings.cpp:104-109 | `image_names` holds one stored name per given name; each is a prefix of the given name, holds no NUL, and stops only at a NUL of the given name. |
| GmicShell.DecodeAll | bindings.cpp:106-114 | All surfaces decode iff each one does. On success image i is the decoding of surface i; a failure is the error of some surface. |
| GmicShell.EncodeAll | bindings.cpp:124-133 | The output loop succeeds iff there are at least as many names as images and every image can be encoded. Then it returns exactly one encoded image and one name per image, image i with name i. |
| GmicShell.Gmic | bindings.cpp:97-139 | The binding returns `GmicResult`. That result covers the count check and the input loop. The interpreter gets the command read as a C string, and its `gmic_exception` is swallowed. Then comes the output loop. |
| GmicShell.ReadInputs | bindings.cpp:104-114 | The input loop yields `DecodeAll` of the surfaces and, on success, `NameList` of the names. |
| GmicShell.WriteOutputs | bindings.cpp:124-133 | The output loop yields `EncodeAll` of the lists the interpreter left. |
| GmicShell.DecodeNext | bindings.cpp:106-114 | One more iteration of the input loop appends the next decoded image, or stops at its error. |
| GmicShell.PrefixFails | bindings.cpp:112 | An assertion failure on some surface is the outcome of the whole input loop. |
| GmicShell.PrefixFailsEncoding | bindings.cpp:127-132 | A failure at some image is the outcome of the whole output loop. |
| GmicLaws.CStringWhole | bindings.cpp:107-108 | A name without NUL is kept whole. |
| GmicLaws.CStringIdempotent | bindings.cpp:108-127 | Reading a stored name as a C string again changes nothing. |
| GmicLaws.CommandCut | bindings.cpp:116-119 | The interpreter sees the command only up to its first NUL: the command and its C-string reading give the same result. |
| GmicLaws.CountsDiffer | bindings.cpp:101-102 | Different numbers of surfaces and names give the count error. |
| GmicLaws.Pairing | bindings.cpp:124-137 | On success the counts matched and every surface decoded. The result holds exactly as many images and names as the interpreter's image list; image i encodes the interpreter's image i and name i is its name i. |
| GmicLaws.Failures | bindings.cpp:97-139 | With matching counts, a failure is a shape, missing-name, depth or spectrum error, never the interpreter's throw. |
| GmicLaws.ThrowSwallowed | bindings.cpp:118-122 | Whether or not the interpreter threw after leaving the lists in a given state, the result is the same. |
| GmicLaws.KeepRoundTrip | bindings.cpp:97-139 | With an interpreter that changes nothing, the call returns its surfaces byte for byte and its names, for non-empty surfaces and NUL-free names. |

## Left out

- Floating point: `gmicjs` decodes into `CImg<float>`. The model uses byte samples for both instantiations, so the float samples are not modelled. Neither are the implicit float-to-`unsigned char` conversions in `toImageData` (bindings.cpp:38, 43-45 and 71-73), which truncate toward zero and are undefined for values outside 0..255.
- Integer widths: the `size_t` product `4 * width * height` may wrap around, and the loop counter of `gmicjs` is an `int`. The model uses unbounded integers.
- The library's `inpaint_patch` and `dilate` and the G'MIC interpreter are not part of this model; they are parameters. No property of `dilate` is assumed, in particular not that the dilated mask contains the undilated one, because its code cannot be checked here.
- `max()` is modelled by `Images.MaxSample`, the largest sample. Its behaviour on an empty image is not modelled, because `toImageData` reaches it only for a one-layer image, which is never empty under the empty-image assumption above.
- The image shapes after `assign` and the sized constructor follow the empty-image assumption stated above; the library code that would confirm it is not part of this model.
- Exceptions other than `gmic_exception`: the handler at bindings.cpp:120 catches only that type, so any other exception from the interpreter propagates out of `gmicjs`. The model's interpreter result has a single throw flag, which stands for a `gmic_exception`; other exceptions are not modelled.
- Inpaint.InpaintPipeline: the dilation and the derived mask take part in the method's body, but, as in the code, they cannot influence its result.
- Memory and the host: `malloc`/`free` of the scratch buffer becomes a Dafny array. Copying the result into a JavaScript `ImageData`, `toCanvas` and the module registration are host glue and are not modelled.
- Logging: the `printf`/`fprintf` calls are not modelled.
- The `Array.isArray` assertions hold by construction, because the inputs are sequences.
- Reading `image_names[i]` past the end of a shorter name list (bindings.cpp:127) is undefined behaviour in the code. The model reports `MissingName` instead.
- A name buffer without a terminating NUL is read whole.
- Text encoding: the command and the names cross embind's `std::string` as encoded bytes (bindings.cpp:97, 107, 129). The model works on Dafny characters and leaves the encoding step out. Cutting at the first NUL gives the same result either way for UTF-8, where a NUL byte only ever encodes the NUL character.
- TranscoderLaws.EncodeRgbaAt, EncodeRgbAt, EncodeBinaryAt and EncodeGrayscaleAt are stated over the pixel index p = x + y·width rather than over (x, y). `TranscoderLaws.DecodeAt` shows how that index relates to (x, y).

## Findings

| source | as written | input that shows it | evidently intended | confidence | as-written member | corrected member |
|---|---|---|---|---|---|---|
| bindings.cpp:160 | `image.inpaint_patch(mask)` inpaints with the raw 4-channel overlay, so the red mask built and dilated at lines 152-157 is dropped | photo (0,0,0,255) with overlays (0,0,0,255) and (0,0,1,255), both 1×1; both have an all-zero red mask, yet an inpainter that returns its mask gives different results | `image.inpaint_patch(binaryMask)`, so the overlay matters only through its dilated red mask | high (not executed) | InpaintLaws.AsWrittenDependsOnOverlay | InpaintLaws.IntendedDependsOnlyOnRedMask |
