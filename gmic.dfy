/** The `gmicjs` binding: a marshalling shell around the G'MIC interpreter.
    It decodes a list of surfaces and a list of names of the same length,
    runs a command on them (the interpreter may rewrite both lists and may
    throw; a throw is reported and otherwise ignored), and encodes whatever
    the lists hold afterwards, image i paired with name i. The interpreter
    is a parameter. */
module GmicShell {
  import opened Samples
  import opened Images
  import opened Transcoder

  /** The lists as the interpreter leaves them, and whether it threw a
      `gmic_exception`, the one exception type the binding's handler catches. */
  datatype EngineRun = EngineRun(images: seq<PlanarImage>, names: seq<string>, threw: bool)

  /** `gmic(command, image_list, image_names)`: works on both lists in place;
      when it throws, the lists are in whatever state it reached. The
      command it receives is a C string. */
  type Engine = (string, seq<PlanarImage>, seq<string>) -> EngineRun

  /** The pair of arrays the binding returns. */
  datatype GmicOutput = GmicOutput(images: seq<ImageData>, names: seq<string>)

  /** A string read as a C string: everything before the first NUL. */
  function CString(s: string): (r: string)
    ensures r <= s
    ensures '\0' !in r
    ensures |r| < |s| ==> s[|r|] == '\0'
  {
    if |s| == 0 || s[0] == '\0' then ""
    else [s[0]] + CString(s[1..])
  }

  /** The names as `image_names` stores them: each read as a C string, so
      each stored name is the given name cut at its first NUL. */
  function NameList(names: seq<string>): (r: seq<string>)
    ensures |r| == |names|
    ensures forall i :: 0 <= i < |names| ==>
      r[i] <= names[i] && '\0' !in r[i] && (|r[i]| < |names[i]| ==> names[i][|r[i]|] == '\0')
  {
    seq(|names|, i requires 0 <= i < |names| => CString(names[i]))
  }

  /** The first loop's decoding of every surface, in order; the first surface
      of the wrong length ends the call. */
  function DecodeAll(list: seq<ImageData>): (r: Result<seq<PlanarImage>>)
    ensures r.Ok? <==> forall i :: 0 <= i < |list| ==> Decode(list[i]).Ok?
    ensures r.Ok? ==>
      |r.value| == |list| && forall i :: 0 <= i < |list| ==> Decode(list[i]) == Ok(r.value[i])
    ensures r.Err? ==> exists i :: 0 <= i < |list| && Decode(list[i]) == Err(r.error)
  {
    if |list| == 0 then Ok([])
    else
      var last := |list| - 1;
      match DecodeAll(list[..last])
      case Err(e) => Err(e)
      case Ok(images) =>
        match Decode(list[last])
        case Err(e) => Err(e)
        case Ok(img) => Ok(images + [img])
  }

  /** The second loop's encoding of every image with the name at the same
      index, in order. An image without a name, or one that cannot be
      encoded, ends the call. */
  function EncodeAll(images: seq<PlanarImage>, names: seq<string>): (r: Result<GmicOutput>)
    ensures r.Ok? <==> |images| <= |names| && forall i :: 0 <= i < |images| ==> Encode(images[i]).Ok?
    ensures r.Ok? ==>
      |r.value.images| == |images| && |r.value.names| == |images| &&
      forall i :: 0 <= i < |images| ==>
        Encode(images[i]) == Ok(r.value.images[i]) && r.value.names[i] == CString(names[i])
    ensures r.Err? ==> r.error == MissingName || exists i :: 0 <= i < |images| && Encode(images[i]) == Err(r.error)
  {
    if |images| == 0 then Ok(GmicOutput([], []))
    else
      var last := |images| - 1;
      match EncodeAll(images[..last], names)
      case Err(e) => Err(e)
      case Ok(out) =>
        if last >= |names| then Err(MissingName)
        else
          match Encode(images[last])
          case Err(e) => Err(e)
          case Ok(data) => Ok(GmicOutput(out.images + [data], out.names + [CString(names[last])]))
  }

  /** What `gmicjs(command, imageDataList, imageNameList)` returns. The
      interpreter's throw flag plays no part: the handler only logs. */
  function GmicResult(command: string, imageDataList: seq<ImageData>, imageNameList: seq<string>,
                      engine: Engine): Result<GmicOutput> {
    if |imageDataList| != |imageNameList| then Err(LengthMismatch)
    else
      match DecodeAll(imageDataList)
      case Err(e) => Err(e)
      case Ok(images) =>
        var run := engine(CString(command), images, NameList(imageNameList));
        EncodeAll(run.images, run.names)
  }

  /** The binding: the count check, the input loop, the interpreter with its
      handler, and the output loop. */
  method Gmic(command: string, imageDataList: seq<ImageData>, imageNameList: seq<string>,
              engine: Engine) returns (r: Result<GmicOutput>)
    ensures r == GmicResult(command, imageDataList, imageNameList, engine)
  {
    if |imageDataList| != |imageNameList| {
      return Err(LengthMismatch);
    }
    var imageList, imageNames := ReadInputs(imageDataList, imageNameList);
    if imageList.Err? {
      return Err(imageList.error);
    }
    // The interpreter runs on the command read as a C string; if it throws,
    // the handler only logs, and the lists keep the state it left them in.
    var run := engine(CString(command), imageList.value, imageNames);
    r := WriteOutputs(run.images, run.names);
  }

  /** The input loop: name i is stored as a C string, then surface i is
      decoded into image i; a surface of the wrong length ends the call. */
  method ReadInputs(imageDataList: seq<ImageData>, imageNameList: seq<string>)
      returns (imageList: Result<seq<PlanarImage>>, imageNames: seq<string>)
    requires |imageDataList| == |imageNameList|
    ensures imageList == DecodeAll(imageDataList)
    ensures imageList.Ok? ==> imageNames == NameList(imageNameList)
  {
    var length := |imageDataList|;
    imageNames := [];
    var images: seq<PlanarImage> := [];
    for i := 0 to length
      invariant |imageNames| == i && forall j :: 0 <= j < i ==> imageNames[j] == CString(imageNameList[j])
      invariant DecodeAll(imageDataList[..i]) == Ok(images)
    {
      imageNames := imageNames + [CString(imageNameList[i])];
      var image := new Image();
      var decoded := FromImageData(image, imageDataList[i]);
      DecodeNext(imageDataList, i);
      if decoded.Fail? {
        PrefixFails(imageDataList, i + 1);
        return Err(decoded.error), imageNames;
      }
      images := images + [image.Value()];
    }
    assert imageDataList[..length] == imageDataList;
    imageList := Ok(images);
  }

  /** The output loop: image i is encoded and pushed with name i read as a
      C string; an image without a name or one that cannot be encoded ends
      the call. */
  method WriteOutputs(imageList: seq<PlanarImage>, imageNames: seq<string>) returns (r: Result<GmicOutput>)
    ensures r == EncodeAll(imageList, imageNames)
  {
    var retImages: seq<ImageData> := [];
    var retNames: seq<string> := [];
    for i := 0 to |imageList|
      invariant EncodeAll(imageList[..i], imageNames) == Ok(GmicOutput(retImages, retNames))
    {
      assert imageList[..i + 1][..i] == imageList[..i];
      if i >= |imageNames| {
        PrefixFailsEncoding(imageList, imageNames, i + 1);
        return Err(MissingName);
      }
      retNames := retNames + [CString(imageNames[i])];
      var image := new Image.FromValue(imageList[i]);
      var encoded := ToImageData(image);
      if encoded.Err? {
        PrefixFailsEncoding(imageList, imageNames, i + 1);
        return Err(encoded.error);
      }
      retImages := retImages + [encoded.value];
    }
    assert imageList[..|imageList|] == imageList;
    r := Ok(GmicOutput(retImages, retNames));
  }

  /** Decoding one more surface after a prefix that decoded. */
  lemma DecodeNext(list: seq<ImageData>, i: nat)
    requires i < |list| && DecodeAll(list[..i]).Ok?
    ensures DecodeAll(list[..i + 1]) ==
      match Decode(list[i])
      case Err(e) => Err(e)
      case Ok(img) => Ok(DecodeAll(list[..i]).value + [img])
  {
    assert list[..i + 1][..i] == list[..i];
  }

  /** A failure in a prefix is the failure of the whole decoding. */
  lemma PrefixFails(list: seq<ImageData>, k: nat)
    requires k <= |list| && DecodeAll(list[..k]).Err?
    ensures DecodeAll(list) == DecodeAll(list[..k])
  {
    if k == |list| {
      assert list[..k] == list;
    } else {
      var init := list[..|list| - 1];
      assert init[..k] == list[..k];
      PrefixFails(init, k);
    }
  }

  /** A failure in a prefix is the failure of the whole encoding. */
  lemma PrefixFailsEncoding(images: seq<PlanarImage>, names: seq<string>, k: nat)
    requires k <= |images| && EncodeAll(images[..k], names).Err?
    ensures EncodeAll(images, names) == EncodeAll(images[..k], names)
  {
    if k == |images| {
      assert images[..k] == images;
    } else {
      var init := images[..|images| - 1];
      assert init[..k] == images[..k];
      PrefixFailsEncoding(init, names, k);
    }
  }
}
