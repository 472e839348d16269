/** The copy loops of the conversion utilities, over an abstract capture:
    `outcomes` lists what successive `cap.read()` calls return, `None` for a
    failed read (`rval` false); reading past its end also fails. */
module FrameCopy {
  import opened Results
  import opened ContainerFormat

  /** The frames read before the first failed read. */
  function TakeFrames<F>(outcomes: seq<Option<F>>): (r: seq<F>)
    ensures |r| <= |outcomes|
    ensures forall i :: 0 <= i < |r| ==> outcomes[i] == Some(r[i])
    ensures |r| < |outcomes| ==> outcomes[|r|] == None
    decreases |outcomes|
  {
    if |outcomes| == 0 || outcomes[0] == None then []
    else [outcomes[0].value] + TakeFrames(outcomes[1..])
  }

  /** The three facts characterise the frames read before the first failure. */
  lemma {:induction false} TakeFramesUnique<F>(outcomes: seq<Option<F>>, w: seq<F>)
    requires |w| <= |outcomes|
    requires forall i :: 0 <= i < |w| ==> outcomes[i] == Some(w[i])
    requires |w| < |outcomes| ==> outcomes[|w|] == None
    ensures w == TakeFrames(outcomes)
    decreases |outcomes|
  {
    if |w| > 0 {
      TakeFramesUnique(outcomes[1..], w[1..]);
    }
  }

  /** Which copy of the utilities: the packaged `VideoProcesser` or the
      stand-alone `VideoImageConverter.py`. */
  datatype Edition = Packaged | Legacy

  /** A finished copy: the writer's fourcc, the frames handed to
      `write` in order, and which of the two handles were released. */
  datatype Copy<F> = Copy(fourcc: string, written: seq<F>, captureReleased: bool, writerReleased: bool)

  /** `avi2mp4`: every frame read, in order, until the first failed read.
      The stand-alone edition spells the fourcc `MP4V` and never releases
      its writer. */
  method Avi2Mp4<F>(edition: Edition, outcomes: seq<Option<F>>) returns (job: Copy<F>)
    ensures job.written == TakeFrames(outcomes)
    ensures job.fourcc == (if edition == Packaged then "mp4v" else "MP4V")
    ensures job.captureReleased
    ensures job.writerReleased <==> edition == Packaged
  {
    var written: seq<F> := [];
    var i := 0;
    while i < |outcomes| && outcomes[i] != None
      invariant i <= |outcomes| && |written| == i
      invariant forall k :: 0 <= k < i ==> outcomes[k] == Some(written[k])
    {
      written := written + [outcomes[i].value];
      i := i + 1;
    }
    TakeFramesUnique(outcomes, written);
    job := Copy(if edition == Packaged then "mp4v" else "MP4V", written, true, edition == Packaged);
  }

  /** How many iterations `range(start, end)` has. */
  function Span(startFrame: int, endFrame: int): nat {
    if endFrame <= startFrame then 0 else endFrame - startFrame
  }

  /** `crop_video` from the already computed frame bounds, `outcomes` starting
      at `start_frame`: the name is checked before anything is opened for
      writing, then at most `end_frame - start_frame` frames are copied in
      read order, stopping at the first failed read. */
  method CropVideo<F>(cropName: FileArg, startFrame: int, endFrame: int, outcomes: seq<Option<F>>)
    returns (r: Result<Copy<F>>)
    ensures PackagedFourcc(cropName).Err? ==> r == Err(ValueError)
    ensures PackagedFourcc(cropName).Ok? ==>
              && r.Ok?
              && r.value.fourcc == PackagedFourcc(cropName).value
              && r.value.captureReleased && r.value.writerReleased
              && (var all := TakeFrames(outcomes);
                  var n := if |all| < Span(startFrame, endFrame) then |all| else Span(startFrame, endFrame);
                  r.value.written == all[..n])
    ensures r.Ok? ==> |r.value.written| <= Span(startFrame, endFrame)
  {
    var fourcc := PackagedFourcc(cropName);
    if fourcc.Err? {
      return Err(ValueError);
    }
    var written: seq<F> := [];
    var k := startFrame;
    var i := 0;
    var failed := false;
    while k < endFrame && !failed
      invariant i <= |outcomes| && |written| == i
      invariant k == startFrame + i
      invariant forall j :: 0 <= j < i ==> outcomes[j] == Some(written[j])
      invariant failed ==> i == |outcomes| || outcomes[i] == None
      invariant failed ==> k < endFrame
      invariant i <= Span(startFrame, endFrame)
      decreases endFrame - k, if failed then 0 else 1
    {
      if i >= |outcomes| || outcomes[i] == None {
        failed := true;
      } else {
        written := written + [outcomes[i].value];
        i := i + 1;
        k := k + 1;
      }
    }
    if failed {
      TakeFramesUnique(outcomes, written);
    } else {
      assert |written| == Span(startFrame, endFrame);
      PrefixOfTaken(outcomes, written);
    }
    r := Ok(Copy(fourcc.value, written, true, true));
  }

  /** Frames that were all read successfully are a prefix of those read
      before the first failure. */
  lemma {:induction false} PrefixOfTaken<F>(outcomes: seq<Option<F>>, w: seq<F>)
    requires |w| <= |outcomes|
    requires forall i :: 0 <= i < |w| ==> outcomes[i] == Some(w[i])
    ensures |w| <= |TakeFrames(outcomes)| && w == TakeFrames(outcomes)[..|w|]
    decreases |w|
  {
    if |w| > 0 {
      PrefixOfTaken(outcomes[1..], w[1..]);
    }
  }
}
