/** Properties of the `gmicjs` shell: C-string names, the count check, the
    pairing of the returned images and names, the swallowed throw, and the
    round trip through an interpreter that changes nothing. */
module GmicLaws {
  import opened Samples
  import opened Images
  import opened Transcoder
  import opened TranscoderLaws
  import opened GmicShell

  /** A string without NUL is read whole. */
  lemma {:induction false} CStringWhole(s: string)
    requires '\0' !in s
    ensures CString(s) == s
  {
    if |s| > 0 {
      assert s[0] != '\0';
      assert forall c :: c in s[1..] ==> c in s;
      CStringWhole(s[1..]);
      assert s == [s[0]] + s[1..];
    }
  }

  /** Reading a name as a C string twice reads it once. */
  lemma CStringIdempotent(s: string)
    ensures CString(CString(s)) == CString(s)
  {
    CStringWhole(CString(s));
  }

  /** The interpreter reads the command only up to its first NUL: a command
      and its C-string reading give the same result. */
  lemma CommandCut(command: string, imageDataList: seq<ImageData>, imageNameList: seq<string>,
                   engine: Engine)
    ensures GmicResult(CString(command), imageDataList, imageNameList, engine) ==
            GmicResult(command, imageDataList, imageNameList, engine)
  {
    CStringIdempotent(command);
  }

  /** Different numbers of surfaces and names end the call before anything
      is decoded or run. */
  lemma CountsDiffer(command: string, imageDataList: seq<ImageData>, imageNameList: seq<string>,
                     engine: Engine)
    requires |imageDataList| != |imageNameList|
    ensures GmicResult(command, imageDataList, imageNameList, engine) == Err(LengthMismatch)
  {
  }

  /** A successful call returns as many images and names as the image list
      holds after the interpreter ran (whether or not it threw): image i is
      the encoding of the interpreter's image i and name i is its name i. */
  lemma Pairing(command: string, imageDataList: seq<ImageData>, imageNameList: seq<string>,
                engine: Engine)
    requires GmicResult(command, imageDataList, imageNameList, engine).Ok?
    ensures |imageDataList| == |imageNameList| && DecodeAll(imageDataList).Ok?
    ensures var run := engine(CString(command), DecodeAll(imageDataList).value, NameList(imageNameList));
      var out := GmicResult(command, imageDataList, imageNameList, engine).value;
      |out.images| == |run.images| && |out.names| == |run.images| &&
      forall i :: 0 <= i < |run.images| ==>
        Encode(run.images[i]) == Ok(out.images[i]) && out.names[i] == CString(run.names[i])
  {
  }

  /** When the call fails after the count check, it is because a surface has
      the wrong length, or the interpreter left an image without a name or
      one that cannot be encoded; never because the interpreter threw. */
  lemma Failures(command: string, imageDataList: seq<ImageData>, imageNameList: seq<string>,
                 engine: Engine)
    requires |imageDataList| == |imageNameList|
    ensures var r := GmicResult(command, imageDataList, imageNameList, engine);
      r.Err? ==> r.error in {ShapeMismatch, MissingName, UnsupportedDepth, UnsupportedSpectrum}
  {
    var r := GmicResult(command, imageDataList, imageNameList, engine);
    if DecodeAll(imageDataList).Ok? && r.Err? {
      var run := engine(CString(command), DecodeAll(imageDataList).value, NameList(imageNameList));
      if r.error != MissingName {
        var i :| 0 <= i < |run.images| && Encode(run.images[i]) == Err(r.error);
        EncodeShape(run.images[i]);
      }
    } else if r.Err? {
      var i :| 0 <= i < |imageDataList| && Decode(imageDataList[i]) == Err(r.error);
      DecodeShape(imageDataList[i]);
    }
  }

  /** The interpreter, with its throw flag set to t. */
  function WithThrow(engine: Engine, t: bool): Engine {
    (c, i, n) => EngineRun(engine(c, i, n).images, engine(c, i, n).names, t)
  }

  /** A throw is not propagated: the result is the same whether or not the
      interpreter threw after leaving the lists in a given state. */
  lemma ThrowSwallowed(command: string, imageDataList: seq<ImageData>, imageNameList: seq<string>,
                       engine: Engine, t: bool)
    ensures GmicResult(command, imageDataList, imageNameList, WithThrow(engine, t)) ==
            GmicResult(command, imageDataList, imageNameList, engine)
  {
  }

  /** An interpreter that leaves both lists as they are. */
  const Keep: Engine := (c, i, n) => EngineRun(i, n, false)

  /** Surfaces that decode and encode again: 4 bytes per pixel, not empty. */
  predicate Surface(d: ImageData) {
    |d.data| == 4 * d.width * d.height && d.width > 0 && d.height > 0
  }

  /** With an interpreter that changes nothing, the call gives back its
      surfaces byte for byte and its names, when no name holds a NUL. */
  lemma KeepRoundTrip(command: string, imageDataList: seq<ImageData>, imageNameList: seq<string>)
    requires |imageDataList| == |imageNameList|
    requires forall i :: 0 <= i < |imageDataList| ==> Surface(imageDataList[i])
    requires forall i :: 0 <= i < |imageNameList| ==> '\0' !in imageNameList[i]
    ensures GmicResult(command, imageDataList, imageNameList, Keep) == Ok(GmicOutput(imageDataList, imageNameList))
  {
    forall i | 0 <= i < |imageDataList|
      ensures Decode(imageDataList[i]).Ok? && Encode(Decode(imageDataList[i]).value) == Ok(imageDataList[i])
    {
      EncodeDecode(imageDataList[i]);
    }
    var images := DecodeAll(imageDataList).value;
    var names := NameList(imageNameList);
    forall i | 0 <= i < |imageNameList|
      ensures names[i] == imageNameList[i]
    {
      CStringWhole(imageNameList[i]);
    }
    var out := EncodeAll(images, names).value;
    assert out.images == imageDataList;
    assert forall i :: 0 <= i < |names| ==> out.names[i] == CString(names[i]) == names[i] by {
      forall i | 0 <= i < |names| { CStringWhole(names[i]); }
    }
    assert out.names == imageNameList;
  }
}
