/** The ffmpeg-backed frame reader (`VideoCapture`). The decoder process is
    abstracted to the bytes its standard output will still deliver and a
    count of `terminate()` calls; the probe is a map of fields. */
module VideoCapture {
  import opened Results
  import Decimal

  /** A field of the decoder's probe record: some fields arrive as numbers
      (`width`, `height`), others as text (`nb_frames`). */
  datatype ProbeValue = Number(n: int) | Text(s: string)

  /** A decoded frame: the raw RGB24 bytes (`'bytes'`) or the
      height x width x 3 array with channels reversed (`'numpy'`). */
  datatype Frame = Raw(bytes: seq<bv8>) | Pixels(rows: seq<seq<seq<bv8>>>)

  datatype Capture = Capture(
    width: Option<int>,
    height: Option<int>,
    frameCount: Option<int>,
    inputArgs: map<string, string>,   // extra ffmpeg input options
    stdout: seq<bv8>,                 // bytes the decoder has yet to deliver
    stopped: bool,
    terminations: nat)                // how often the process was terminated

  /** Python's `int(v)` on a probe value. */
  function ToInt(v: ProbeValue): Result<int> {
    match v
    case Number(n) => Ok(n)
    case Text(s) => Decimal.ParseInt(s)
  }

  /** `int(info[key]) if key in info.keys() else None`. */
  function Field(info: map<string, ProbeValue>, key: string): (r: Result<Option<int>>)
    ensures key !in info ==> r == Ok(None)
    ensures key in info && info[key].Number? ==> r == Ok(Some(info[key].n))
    ensures key in info && info[key].Text? ==>
              && (r.Ok? <==> Decimal.IsIntLiteral(info[key].s))
              && (r.Ok? ==> r.value == Some(Decimal.ParseInt(info[key].s).value))
    ensures r.Ok? && key in info ==> r.value.Some?
    ensures r.Err? ==> r.error == ValueError
  {
    if key !in info then Ok(None)
    else
      match ToInt(info[key])
      case Ok(n) => Ok(Some(n))
      case Err(e) => Err(e)
  }

  /** A probe field holding the decimal text of `n` converts to `n`, as
      ffprobe's textual `nb_frames` does. */
  lemma FieldReadsDecimalText(info: map<string, ProbeValue>, key: string, n: int)
    requires key in info && info[key] == Text(Decimal.IntToString(n))
    ensures Field(info, key) == Ok(Some(n))
  {
    Decimal.ParseShowsBack(n);
  }

  /** The hardware-acceleration input options: present only when `gpu_id`
      is truthy, i.e. given and non-zero. */
  function HwAccelArgs(gpuId: Option<int>): (r: map<string, string>)
    ensures gpuId == None || gpuId == Some(0) <==> r == map[]
    ensures r != map[] ==>
              && r.Keys == {"hwaccel", "hwaccel_device"}
              && r["hwaccel"] == "nvdec"
              && r["hwaccel_device"] == Decimal.IntToString(gpuId.value)
              && Decimal.ParseInt(r["hwaccel_device"]) == Ok(gpuId.value)
  {
    match gpuId
    case Some(g) =>
      if g != 0 then
        Decimal.ParseShowsBack(g);
        var args := map["hwaccel" := "nvdec", "hwaccel_device" := Decimal.IntToString(g)];
        assert "hwaccel" in args;
        args
      else map[]
    case None => map[]
  }

  /** The constructor, minus the probe and process spawning: the probe
      fields are converted in source order and the first failing `int()`
      raises. The frame rate goes through `eval` and is not modelled. */
  function Open(info: map<string, ProbeValue>, gpuId: Option<int>, stdout: seq<bv8>): (r: Result<Capture>)
    ensures r.Ok? <==> Field(info, "width").Ok? && Field(info, "height").Ok? && Field(info, "nb_frames").Ok?
    ensures r.Ok? ==>
              && r.value.width == Field(info, "width").value
              && r.value.height == Field(info, "height").value
              && r.value.frameCount == Field(info, "nb_frames").value
              && r.value.inputArgs == HwAccelArgs(gpuId)
              && r.value.stdout == stdout
              && IsOpened(r.value)
              && r.value.terminations == 0
  {
    match Field(info, "width")
    case Err(e) => Err(e)
    case Ok(w) =>
      match Field(info, "height")
      case Err(e) => Err(e)
      case Ok(h) =>
        match Field(info, "nb_frames")
        case Err(e) => Err(e)
        case Ok(n) => Ok(Capture(w, h, n, HwAccelArgs(gpuId), stdout, false, 0))
  }

  predicate IsOpened(c: Capture) {
    !c.stopped
  }

  /** `release()`: terminate the process if still open, then mark stopped. */
  function Release(c: Capture): (r: Capture)
    ensures !IsOpened(r)
    ensures r.terminations == c.terminations + (if IsOpened(c) then 1 else 0)
    ensures r.(stopped := c.stopped, terminations := c.terminations) == c
  {
    if IsOpened(c) then c.(stopped := true, terminations := c.terminations + 1)
    else c
  }

  /** Releasing twice is releasing once: the process is terminated at most once. */
  lemma ReleaseIdempotent(c: Capture)
    ensures Release(Release(c)) == Release(c)
    ensures Release(Release(c)).terminations <= c.terminations + 1
  {
  }

  /** How many bytes `BufferedReader.read(n)` takes from a pipe holding
      `available` more bytes: up to `n`, or everything for `n == -1`.
      Other negative lengths raise `ValueError`; `None` stands for that. */
  function BytesTaken(n: int, available: nat): (r: Option<nat>)
    ensures n >= 0 ==> r == Some(if n < available then n else available)
    ensures n == -1 ==> r == Some(available)
    ensures n < -1 ==> r == None
  {
    if n < -1 then None
    else if n == -1 || n > available then Some(available)
    else Some(n)
  }

  /** Result of one `read`: the capture afterwards and the value or error. */
  datatype ReadStep = ReadStep(cap: Capture, result: Result<Option<Frame>>)

  /** The output kind `read(type)` uses: a falsy `type` means `'bytes'`. */
  function Kind(kind: Option<string>): string {
    if kind == None || kind == Some("") then "bytes" else kind.value
  }

  /** One RGB24 pixel in the reversed channel order of the numpy view. */
  function Bgr(p: seq<bv8>): seq<bv8>
    requires |p| == 3
  {
    [p[2], p[1], p[0]]
  }

  /** One row of `w` pixels from `w * 3` bytes. */
  function PixelRow(data: seq<bv8>, w: nat): (row: seq<seq<bv8>>)
    requires |data| == w * 3
    ensures |row| == w
    ensures forall x :: 0 <= x < w ==> |row[x]| == 3
    decreases w
  {
    if w == 0 then [] else [Bgr(data[..3])] + PixelRow(data[3..], w - 1)
  }

  /** `np.frombuffer(data).reshape([h, w, 3])[:, :, ::-1]` for non-negative sizes. */
  function PixelRows(data: seq<bv8>, w: nat, h: nat): (rows: seq<seq<seq<bv8>>>)
    requires |data| == h * (w * 3)
    ensures |rows| == h
    ensures forall y :: 0 <= y < h ==> |rows[y]| == w
    ensures forall y, x :: 0 <= y < h && 0 <= x < w ==> |rows[y][x]| == 3
    decreases h
  {
    if h == 0 then []
    else
      PeelRow(h, w * 3);
      assert |data[w * 3..]| == (h - 1) * (w * 3);
      [PixelRow(data[..w * 3], w)] + PixelRows(data[w * 3..], w, h - 1)
  }

  /** `h` rows of `k` bytes are one row followed by `h - 1` rows. */
  lemma PeelRow(h: nat, k: nat)
    requires h > 0
    ensures h * k == k + (h - 1) * k
  {
  }

  /** `read(type)`. */
  function Read(c: Capture, kind: Option<string>): (r: ReadStep)
    // A type other than 'bytes'/'numpy' raises before any byte is read.
    ensures Kind(kind) != "bytes" && Kind(kind) != "numpy" ==> r == ReadStep(c, Err(ValueError))
    // A missing dimension makes `None * int` raise, also before reading.
    ensures (Kind(kind) == "bytes" || Kind(kind) == "numpy") && (c.width == None || c.height == None) ==>
              r == ReadStep(c, Err(TypeError))
    // A delivered frame consumed exactly width*height*3 bytes.
    ensures r.result.Ok? && r.result.value.Some? ==>
              && c.width.Some? && c.height.Some?
              && var size := c.width.value * c.height.value * 3;
                 && 0 < size <= |c.stdout|
                 && r.cap == c.(stdout := c.stdout[size..])
                 && (Kind(kind) == "bytes" ==> r.result.value.value == Raw(c.stdout[..size]))
    // End of stream: nothing left to read releases the capture and yields None.
    ensures r.result == Ok(None) ==> !IsOpened(r.cap) && r.cap == Release(c)
    ensures ((Kind(kind) == "bytes" || Kind(kind) == "numpy") && c.width.Some? && c.height.Some?
              && c.width.value * c.height.value >= 0 && |c.stdout| == 0) ==> r.result == Ok(None)
    // A zero-size frame reads `b''`, which the code takes for the end of stream.
    ensures ((Kind(kind) == "bytes" || Kind(kind) == "numpy") && c.width.Some? && c.height.Some?
              && c.width.value * c.height.value == 0) ==> r == ReadStep(Release(c), Ok(None))
    // A negative size other than -1 makes the pipe read raise, before any byte is read.
    ensures ((Kind(kind) == "bytes" || Kind(kind) == "numpy") && c.width.Some? && c.height.Some?
              && c.width.value * c.height.value < 0) ==> r == ReadStep(c, Err(ValueError))
    // A short, non-empty read fails the assertion.
    ensures ((Kind(kind) == "bytes" || Kind(kind) == "numpy") && c.width.Some? && c.height.Some?
              && 0 < |c.stdout| < c.width.value * c.height.value * 3) ==>
              r == ReadStep(c.(stdout := []), Err(AssertionError))
  {
    var k := Kind(kind);
    if k != "bytes" && k != "numpy" then ReadStep(c, Err(ValueError))
    else if c.width == None || c.height == None then ReadStep(c, Err(TypeError))
    else
      var w, h := c.width.value, c.height.value;
      var size := w * h * 3;
      match BytesTaken(size, |c.stdout|)
      case None => ReadStep(c, Err(ValueError))
      case Some(n) =>
        var data := c.stdout[..n];
        var rest := c.(stdout := c.stdout[n..]);
        if n == 0 then ReadStep(Release(rest), Ok(None))
        else if n != size then ReadStep(rest, Err(AssertionError))
        else if k == "bytes" then ReadStep(rest, Ok(Some(Raw(data))))
        else if w < 0 || h < 0 then
          // both negative: numpy refuses the shape
          ReadStep(rest, Err(ValueError))
        else ReadStep(rest, Ok(Some(Pixels(PixelRows(data, w, h)))))
  }

  /** Pixel `x` of a row is the reversed byte triple `x`. */
  lemma {:induction false} PixelRowIndex(data: seq<bv8>, w: nat, x: nat, ch: nat)
    requires |data| == w * 3 && x < w && ch < 3
    ensures PixelRow(data, w)[x][ch] == data[x * 3 + (2 - ch)]
    decreases w
  {
    if x > 0 {
      PixelRowIndex(data[3..], w - 1, x - 1, ch);
    }
  }

  /** The numpy view's index formula: `out[y][x][c] == bytes[(y*w + x)*3 + (2 - c)]`. */
  lemma {:induction false} PixelRowsIndex(data: seq<bv8>, w: nat, h: nat, y: nat, x: nat, ch: nat)
    requires |data| == h * (w * 3) && y < h && x < w && ch < 3
    ensures h * (w * 3) == w * h * 3
    ensures PixelRows(data, w, h)[y][x][ch] == data[SourceOffset(w, h, y, x, ch)]
    decreases h
  {
    PeelRow(h, w * 3);
    if y == 0 {
      PixelRowIndex(data[..w * 3], w, x, ch);
    } else {
      PixelRowsIndex(data[w * 3..], w, h - 1, y - 1, x, ch);
      PeelRow(y, w);
    }
  }

  /** Position in the raw frame of channel `ch` of pixel (`y`, `x`) of the
      channel-reversed view: row-major pixels of three bytes each. */
  function SourceOffset(w: nat, h: nat, y: nat, x: nat, ch: nat): (o: nat)
    requires y < h && x < w && ch < 3
    ensures o < w * h * 3
  {
    var pixel := y * w + x;
    PixelBound(w, h, y, x);
    assert pixel * 3 + 3 <= (h * w) * 3;
    assert (h * w) * 3 == w * h * 3;
    pixel * 3 + (2 - ch)
  }

  /** Pixel (`y`, `x`) lies inside an `h` by `w` image. */
  lemma PixelBound(w: nat, h: nat, y: nat, x: nat)
    requires y < h && x < w
    ensures y * w + x + 1 <= h * w
  {
    PeelRow(y + 1, w);
    MulMonotone(y + 1, h, w);
  }

  lemma MulMonotone(a: nat, b: nat, k: nat)
    requires a <= b
    ensures a * k <= b * k
  {
  }

  /** A numpy read of a full frame consumes exactly that frame. */
  lemma NumpyReadFrame(c: Capture, w: nat, h: nat)
    requires c.width == Some(w) && c.height == Some(h)
    requires 0 < w * h * 3 <= |c.stdout|
    ensures w * h * 3 == h * (w * 3)
    ensures Read(c, Some("numpy"))
            == ReadStep(c.(stdout := c.stdout[w * h * 3..]), Ok(Some(Pixels(PixelRows(c.stdout[..w * h * 3], w, h)))))
  {
    var size := w * h * 3;
    assert size == h * (w * 3) by {
      assert w * h == h * w;
      assert (h * w) * 3 == h * (w * 3);
    }
    assert Kind(Some("numpy")) == "numpy";
    assert BytesTaken(size, |c.stdout|) == Some(size);
  }

  /** A numpy read of a full frame delivers the array of shape
      (height, width, 3) whose entries are the channel-reversed bytes of
      the frame, and consumes exactly that frame. */
  lemma NumpyReadLayout(c: Capture, w: nat, h: nat)
    requires c.width == Some(w) && c.height == Some(h)
    requires 0 < w * h * 3 <= |c.stdout|
    ensures var r := Read(c, Some("numpy"));
            && r.cap == c.(stdout := c.stdout[w * h * 3..])
            && r.result.Ok? && r.result.value.Some? && r.result.value.value.Pixels?
            && var rows := r.result.value.value.rows;
               && |rows| == h
               && (forall y :: 0 <= y < h ==> |rows[y]| == w)
               && (forall y, x, ch :: 0 <= y < h && 0 <= x < w && 0 <= ch < 3 ==>
                     |rows[y][x]| == 3 && rows[y][x][ch] == c.stdout[SourceOffset(w, h, y, x, ch)])
  {
    NumpyReadFrame(c, w, h);
    var size := w * h * 3;
    var data := c.stdout[..size];
    var rows := PixelRows(data, w, h);
    forall y, x, ch | 0 <= y < h && 0 <= x < w && 0 <= ch < 3
      ensures rows[y][x][ch] == c.stdout[SourceOffset(w, h, y, x, ch)]
    {
      PixelRowsIndex(data, w, h, y, x, ch);
    }
  }

  /** `read(None)` is `read('bytes')`, and so is `read('')`. */
  lemma DefaultKindIsBytes(c: Capture)
    ensures Read(c, None) == Read(c, Some("bytes"))
    ensures Read(c, Some("")) == Read(c, Some("bytes"))
  {
  }

  /** The decoder output made of whole frames back to back. */
  function Concat(frames: seq<seq<bv8>>): seq<bv8> {
    if |frames| == 0 then [] else frames[0] + Concat(frames[1..])
  }

  /** `k` successive `read('bytes')` calls. */
  function ReadMany(c: Capture, k: nat): (Capture, seq<Result<Option<Frame>>>)
    decreases k
  {
    if k == 0 then (c, [])
    else
      var step := Read(c, Some("bytes"));
      var (last, results) := ReadMany(step.cap, k - 1);
      (last, [step.result] + results)
  }

  /** The results of reading each of `frames` as raw bytes. */
  function RawResults(frames: seq<seq<bv8>>): seq<Result<Option<Frame>>> {
    if |frames| == 0 then [] else [Ok(Some(Raw(frames[0])))] + RawResults(frames[1..])
  }

  /** With at least one whole frame buffered, a bytes read delivers exactly it. */
  lemma ReadWholeFrame(c: Capture, size: int)
    requires c.width.Some? && c.height.Some?
    requires size == c.width.value * c.height.value * 3 && 0 < size <= |c.stdout|
    ensures Read(c, Some("bytes")) == ReadStep(c.(stdout := c.stdout[size..]), Ok(Some(Raw(c.stdout[..size]))))
  {
  }

  /** A decoder that emits whole frames yields them one per read, in order,
      and then one end-of-stream `None` that terminates the process once. */
  lemma {:induction false} WholeFramesReadInOrder(c: Capture, frames: seq<seq<bv8>>)
    requires c.width.Some? && c.height.Some?
    requires c.width.value * c.height.value > 0
    requires forall i :: 0 <= i < |frames| ==> |frames[i]| == c.width.value * c.height.value * 3
    requires c.stdout == Concat(frames)
    ensures ReadMany(c, |frames| + 1).1 == RawResults(frames) + [Ok(None)]
    ensures !IsOpened(ReadMany(c, |frames| + 1).0)
    ensures ReadMany(c, |frames| + 1).0.terminations == c.terminations + (if IsOpened(c) then 1 else 0)
    decreases |frames|
  {
    var size := c.width.value * c.height.value * 3;
    if |frames| == 0 {
      assert Read(c, Some("bytes")) == ReadStep(Release(c), Ok(None));
    } else {
      assert c.stdout == frames[0] + Concat(frames[1..]);
      assert c.stdout[..size] == frames[0];
      assert c.stdout[size..] == Concat(frames[1..]);
      ReadWholeFrame(c, size);
      var next := c.(stdout := Concat(frames[1..]));
      WholeFramesReadInOrder(next, frames[1..]);
    }
  }
}
