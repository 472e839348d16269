# VIPTools video core in Dafny

This project models the video core of VIPTools:

- **The ffmpeg-backed `VideoCapture`.** The model covers the probe fields, the hardware-acceleration input options, `read` in both output types, `is_opened` and `release`.
- **The threaded buffers `VideoStream` and `MultiVideoStream`.** Each is written as a sequential transition system. One step is either one public call or one iteration of the background loop.
- **The conversion utilities:**
  - in the packaged `VideoImageConverter` / `VideoProcesser`: `video2images`, `images2video`, `avi2mp4` and `crop_video`
  - in the stand-alone `VideoImageConverter.py`: `video2Image`, `image2Video` and `avi2mp4`

Modules, one per file:

| file | module | models |
|---|---|---|
| `results.dfy` | `Results` | `Option`, `Result`, the Python exceptions raised, and `Call` (a call returns, raises or blocks) |
| `decimal.dfy` | `Decimal` | `str(n)` and `int(s)` on decimal text |
| `video_capture.dfy` | `VideoCapture` | the capture over the decoder's remaining output bytes |
| `bounded_feed.dfy` | `BoundedFeed` | one source feeding one bounded FIFO queue (the producer step both streams share) |
| `video_stream.dfy` | `VideoStream` | `VideoStream` |
| `multi_video_stream.dfy` | `MultiVideoStream` | `MultiVideoStream` |
| `container_format.dfy` | `ContainerFormat` | the destination suffix → fourcc choice of both editions |
| `frame_copy.dfy` | `FrameCopy` | the copy loops of `avi2mp4` and `crop_video` |
| `image_sequence.dfy` | `ImageSequence` | frame numbering, the numeric sort key, and the round trip |

How the parts connect:

- **Frame sources.** A stream's frame source is the sequence of frames its capture will still deliver. After that sequence, `read` returns `None` forever. `VideoCapture.WholeFramesReadInOrder` proves this about the capture: it yields the frames one per read, in order, then `None`, and terminates the decoder once.
- **`MultiVideoStream` sources.** Each source of a `MultiVideoStream` is modelled by the items its `VideoStream` hands out. `VideoStream.DeliveryInSourceOrder` proves those are the frames in order followed by the end-of-stream item.
- **Copy loops.** The copy loops take the list of outcomes that successive `cv2` reads return, with `None` for a failed read.
- **Threads.** Thread interleavings are arbitrary event sequences. A call that would wait is not taken.

### Behaviour worth knowing

The proofs state several behaviours that differ from what the docstrings and comments of the code suggest:

- **The end-of-stream `None` is queued.** On the end of the source the producer sets `stopped`, then passes the `None` through `transform` and queues it (`video_stream.py:57-76`). Consumers therefore receive every frame and then exactly one transformed `None` (`BoundedFeed.Expected`). The model takes that loop iteration as one step. In the code, `running()` can already be false in between, while the sentinel is still to be queued (see "Left out").
- **Zero sources never stop.** A `MultiVideoStream` with no sources never sets `stopped`, because `all(...)` is only evaluated after a source ends. Its polling loop spins and `running()` stays true (`MultiVideoStream.NoSourcesNeverStop`).
- **`read()` without an index leaves sentinels queued.** Take a consumer that only polls and calls `read()` without an index. That read skips stopped sources, so their queued `None` stays in place. Once any source has stopped, `running()` is true for good (`MultiVideoStream.AggregateReadKeepsRunning`).
- **After the aggregate stop, `read()` answers `None`.** This holds even while frames are still queued (`MultiVideoStream.ReadAll`).
- **The stand-alone edition never releases its writer.** Its `image2Video` and `avi2mp4` never release the writer, and it spells the mp4 fourcc `MP4V`.
- **A short read is not a clean stop.** A short, non-empty read fails the `assert` after consuming the partial bytes. The capture stays open.
- **`stop()` can wait for ever.** `stop()` joins the producer thread before it sets `stopped`, and the producer leaves its loop only through that flag or the end of the source (`video_stream.py:44-79`, `98-102`). When the queue is full and nobody reads, the producer only sleeps, so `stop()` never returns. The same holds for `MultiVideoStream` once every live source has a full queue (`VideoStream.FullQueueStopWaits`, `MultiVideoStream.FullQueuesStopWaits`).
- **Errors are Python's built-in ones.** The code raises `ValueError` for an unreachable URI and `AssertionError` for a short read. There are no dedicated error types.

## Model

| member | source | states |
|---|---|---|
| Decimal.NatToString | VIPTools/video_image_converter.py:49 | `str(c)` is a non-empty run of decimal digits whose value is `c`, with no leading zero unless `c` is 0 |
| Decimal.IntToString | VIPTools/video/video_capture.py:28 | `str(n)` is digits, preceded by `-` exactly when `n` is negative, in the shortest form: no leading zero except `"0"` itself, and none right after the `-` |
| Decimal.ParseInt | VIPTools/video/video_capture.py:19-22 | `int(s)` succeeds exactly on an optional sign followed by at least one digit; otherwise it raises `ValueError`; the result is the decimal value of the digits, negated after a leading `-` |
| Decimal.ParseShowsBack | VIPTools/video/video_capture.py:28 | `int(str(n)) == n` for every integer |
| Decimal.NatToStringInjective | VIPTools/video_image_converter.py:47-49 | distinct frame counters print differently |
| VideoCapture.Field | VIPTools/video/video_capture.py:19-22 | an absent probe key gives `None`; a numeric value gives that number; a text value gives the integer `int()` parses from it, or `ValueError` when `int()` rejects the text |
| VideoCapture.FieldReadsDecimalText | VIPTools/video/video_capture.py:19-22 | a text field holding the decimal form of `n` converts to `n` |
| VideoCapture.HwAccelArgs | VIPTools/video/video_capture.py:24-29 | the options are empty exactly when `gpu_id` is falsy (`None` or 0); otherwise they hold exactly `hwaccel=nvdec` and a `hwaccel_device` that is exactly `str(gpu_id)`, which parses back to the id |
| VideoCapture.Open | VIPTools/video/video_capture.py:14-30 | construction succeeds exactly when width, height and frame count all convert; the capture is then open, has the converted fields and the acceleration options, and has terminated nothing |
| VideoCapture.IsOpened | VIPTools/video/video_capture.py:54-55 | `is_opened()`: true from construction until the first release, which an end-of-stream read also performs |
| VideoCapture.Release | VIPTools/video/video_capture.py:57-60 | afterwards the capture is not open; the process is terminated only if it was open; nothing else changes |
| VideoCapture.ReleaseIdempotent | VIPTools/video/video_capture.py:57-60 | a second release changes nothing, so the process is terminated at most once |
| VideoCapture.BytesTaken | VIPTools/video/video_capture.py:38-39 | a pipe read of `n >= 0` takes `min(n, available)` bytes, `-1` takes all of them, and any other negative size raises |
| VideoCapture.Read | VIPTools/video/video_capture.py:32-52 | a bad type raises `ValueError` and a missing dimension raises `TypeError`, both before any byte is consumed; a frame consumes exactly width·height·3 bytes, and a bytes read returns them; an empty pipe releases the capture and returns `None`; a zero-size frame reads nothing and so also releases and returns `None`; a negative size raises `ValueError` from the pipe read before any byte is consumed; a short read raises `AssertionError` |
| VideoCapture.DefaultKindIsBytes | VIPTools/video/video_capture.py:33 | `read()` and `read('')` behave as `read('bytes')` |
| VideoCapture.PixelRows | VIPTools/video/video_capture.py:49 | the numpy view has shape (height, width, 3) |
| VideoCapture.PixelRowsIndex | VIPTools/video/video_capture.py:49 | entry (y, x, ch) of the view is byte `3(y·w + x) + 2 − ch` of the frame (row-major, channels reversed) |
| VideoCapture.NumpyReadFrame | VIPTools/video/video_capture.py:38-49 | a numpy read of a full frame consumes exactly one frame and returns its pixel view |
| VideoCapture.NumpyReadLayout | VIPTools/video/video_capture.py:38-49 | a numpy read returns an array of shape (height, width, 3) whose every entry is the channel-reversed source byte, and consumes exactly one frame |
| VideoCapture.ReadWholeFrame | VIPTools/video/video_capture.py:38-47 | with a whole frame buffered, a bytes read returns exactly that frame and leaves the rest |
| VideoCapture.WholeFramesReadInOrder | VIPTools/video/video_capture.py:38-42 | a decoder that emits whole frames yields them one per read, in order, then one `None`; this closes the capture and terminates the process once |
| BoundedFeed.Full | VIPTools/video/video_stream.py:51 | `Queue.full()` for `Queue(maxsize)`: the queue holds at least `maxsize` items, and a non-positive `maxsize` never fills |
| BoundedFeed.Apply | VIPTools/video/video_stream.py:72-73 | `if self.transform: frame = self.transform(frame)`: the callback, when given, is applied to every item, the end-of-stream `None` included |
| BoundedFeed.Pull | VIPTools/video/video_stream.py:53 | one `cap.read()` seen at frame level: the next frame of the source, or `None` once it is exhausted |
| BoundedFeed.Fill | VIPTools/video/video_stream.py:48-76 | a stopped source or a full queue is left unchanged; otherwise exactly one item is appended to the back (the next frame transformed, or the transformed `None` with the source stopping); `stopped` is never reset; the bound is kept |
| BoundedFeed.Take | VIPTools/video/video_stream.py:81-83 | `get` blocks exactly on an empty queue, and otherwise removes the front item and nothing else |
| BoundedFeed.FreshFifo | VIPTools/video/video_stream.py:35 | a new, empty queue satisfies the FIFO invariant |
| BoundedFeed.FillKeepsFifo | VIPTools/video/video_stream.py:51-76 | the invariant holds across a producer visit: delivered, then queued, then still to come, make up the frames in order plus the sentinel |
| BoundedFeed.TakeKeepsFifo | VIPTools/video/video_stream.py:81-83 | a consumer `get` keeps that invariant |
| BoundedFeed.FifoDelivered | VIPTools/video/video_stream.py:87-96 | what was delivered is a prefix of the full output; once stopped and drained, all of it was delivered |
| VideoStream.Start | VIPTools/video/video_stream.py:39-42 | the first `start()` starts the thread; a second raises `RuntimeError` |
| VideoStream.ProducerStep | VIPTools/video/video_stream.py:44-79 | once stopped, the loop exits and releases the capture; on a full queue nothing changes; otherwise exactly one item moves to the queue, and reading the end releases the capture |
| VideoStream.Read | VIPTools/video/video_stream.py:81-83 | `read()` blocks exactly on an empty queue, and otherwise returns the front item and changes nothing else |
| VideoStream.More | VIPTools/video/video_stream.py:90-96 | `more()` as it returns: whether the queue holds an item; its bounded wait only gives the producer time to run |
| VideoStream.Running | VIPTools/video/video_stream.py:87-88 | `running()`: an item is queued or `stopped` is not set |
| VideoStream.Stop | VIPTools/video/video_stream.py:98-102 | raises before `start()` and waits while the producer runs; after the join it sets `stopped` |
| VideoStream.StopIdempotent | VIPTools/video/video_stream.py:98-102 | repeating a `stop()` that returned gives the same state |
| VideoStream.FullQueueStopWaits | VIPTools/video/video_stream.py:44-102 | once the queue is full and the source is not exhausted, calls without a `read()` change nothing and `stop()` keeps waiting |
| VideoStream.Next | VIPTools/video/video_stream.py:44-102 | across any step, `stopped` is never reset, and a delivered item is the front of the queue |
| VideoStream.Run | VIPTools/video/video_stream.py:44-102 | over any run, the consumer's history only grows and `queue_size` is unchanged |
| VideoStream.Init | VIPTools/video/video_stream.py:26-37 | the constructor: the whole source still to be read, an empty queue, `stopped` false, an open capture, and no thread started |
| VideoStream.InitInv | VIPTools/video/video_stream.py:26-37 | the constructed stream satisfies the invariant |
| VideoStream.NextKeepsInv | VIPTools/video/video_stream.py:44-102 | every step keeps the FIFO invariant and the thread/capture life cycle |
| VideoStream.RunKeepsInv | VIPTools/video/video_stream.py:44-102 | every run keeps the invariant |
| VideoStream.DeliveryInSourceOrder | VIPTools/video/video_stream.py:44-96 | under any interleaving of whole calls and loop iterations, the consumer receives the frames in source order, the queue never exceeds `queue_size`, and when `running()` is false everything has been received; an exited producer has released the capture |
| VideoStream.AlternateDrainsFrom | VIPTools/video/video_stream.py:44-88 | from a live, empty state, alternating producer iterations and reads drains the source |
| VideoStream.AlternatingConsumerReceivesAll | VIPTools/video/video_stream.py:39-88 | for any frames and queue size, a consumer reading after each producer iteration receives all frames and the sentinel, and then `running()` is false |
| MultiVideoStream.Init | VIPTools/video/video_stream.py:121-131 | one fresh, empty, live queue per source |
| MultiVideoStream.Visit | VIPTools/video/video_stream.py:143-173 | the loop body for index i: nothing after the aggregate stop, a skip for a stopped source or a full queue, else one producer step, setting `stopped` when that step stops the last live source |
| MultiVideoStream.VisitEffect | VIPTools/video/video_stream.py:143-173 | visiting index i gives i its producer step and leaves every other index unchanged |
| MultiVideoStream.VisitFrom | VIPTools/video/video_stream.py:143-173 | the `for` loop gives each remaining index exactly its own producer step; the aggregate flag keeps agreeing with the per-source flags |
| MultiVideoStream.Round | VIPTools/video/video_stream.py:138-176 | after the aggregate stop, the loop exits; otherwise every source gets exactly one producer step, so a stopped source is never read again; the aggregate flag is set exactly when the last source stops |
| MultiVideoStream.NoSourcesNeverStop | VIPTools/video/video_stream.py:121-157 | with no sources a round changes nothing and `stopped` stays false |
| MultiVideoStream.Start | VIPTools/video/video_stream.py:133-136 | the first `start()` starts the thread; a second raises `RuntimeError` |
| MultiVideoStream.ReadAt | VIPTools/video/video_stream.py:179-185 | an out-of-range index fails the assertion; a stopped, drained source answers `None` without change; a live, empty one waits; otherwise the front of that queue is popped and nothing else changes |
| MultiVideoStream.ReadAll | VIPTools/video/video_stream.py:186-188 | after the aggregate stop it returns `None`; otherwise it waits exactly when some live queue is empty, and else returns one item from every live queue and `None` for every stopped source, whose queue is untouched |
| MultiVideoStream.TotalQueued | VIPTools/video/video_stream.py:210-213 | the total is zero exactly when every queue is empty |
| MultiVideoStream.MoreAt | VIPTools/video/video_stream.py:201-207 | an out-of-range index fails the assertion; otherwise the answer is whether that queue holds an item |
| MultiVideoStream.RunningAt | VIPTools/video/video_stream.py:193-195 | an out-of-range index fails the assertion; otherwise the source runs when it has queued items or is not stopped |
| MultiVideoStream.MoreAny | VIPTools/video/video_stream.py:208-213 | `more()` without an index, as it returns: whether some queue holds an item |
| MultiVideoStream.RunningAny | VIPTools/video/video_stream.py:196-197 | `running()` without an index: some queue holds an item or the aggregate `stopped` is not set |
| MultiVideoStream.NotRunningReadsNone | VIPTools/video/video_stream.py:178-195 | when `running(idx)` is false, `read(idx)` answers `None` at once |
| MultiVideoStream.Stop | VIPTools/video/video_stream.py:215-219 | raises before `start()` and waits while polling runs; after the join it sets `stopped` |
| MultiVideoStream.FullRoundIdle | VIPTools/video/video_stream.py:138-150 | a polling round in which every source is stopped or full changes nothing |
| MultiVideoStream.FullQueuesStopWaits | VIPTools/video/video_stream.py:138-219 | once every live source has a full queue, calls without a `read` change nothing and `stop()` keeps waiting |
| MultiVideoStream.Next | VIPTools/video/video_stream.py:133-219 | no step resets the aggregate flag or any per-source flag |
| MultiVideoStream.Run | VIPTools/video/video_stream.py:133-219 | a run keeps the number of sources and `queue_size` |
| MultiVideoStream.InitInv | VIPTools/video/video_stream.py:121-131 | the constructed object satisfies the invariant |
| MultiVideoStream.RoundKeepsInv | VIPTools/video/video_stream.py:138-176 | a polling round keeps every per-source FIFO invariant and the flag agreement |
| MultiVideoStream.ReplaceLaneKeepsInv | VIPTools/video/video_stream.py:179-188 | changing one source's queue in a FIFO-preserving way keeps the invariant |
| MultiVideoStream.SameFlagsAgree | VIPTools/video/video_stream.py:153-157 | the aggregate flag keeps agreeing when no per-source flag changed |
| MultiVideoStream.ReadAtKeepsInv | VIPTools/video/video_stream.py:179-185 | `read(idx)` keeps the invariant |
| MultiVideoStream.ReadAllKeepsInv | VIPTools/video/video_stream.py:186-188 | `read()` keeps the invariant |
| MultiVideoStream.NextKeepsInv | VIPTools/video/video_stream.py:133-219 | every step keeps the invariant |
| MultiVideoStream.RunKeepsInv | VIPTools/video/video_stream.py:133-219 | every run keeps the invariant |
| MultiVideoStream.PerSourceDelivery | VIPTools/video/video_stream.py:138-195 | under any interleaving of whole calls and loop iterations, each source's consumers receive its frames in order followed by its sentinel, each queue stays within `queue_size`, and when `running(idx)` is false that source is fully received |
| MultiVideoStream.AggregateReadKeepsRunning | VIPTools/video/video_stream.py:186-197 | without `read(idx)` or `stop()`, stopped sources keep their sentinel queued, so once one has stopped `running()` stays true |
| ContainerFormat.LowerChar | VIPTools/video_image_converter.py:69 | `str.lower()` on one character: ASCII capitals map to their lower case, every other character is unchanged |
| ContainerFormat.Lower | VIPTools/video_image_converter.py:69 | `str.lower()`, character by character |
| ContainerFormat.LowerTailMatches | VIPTools/video_image_converter.py:69 | `s[-3:].lower() == ext` holds exactly when the last three characters fold to `ext` |
| ContainerFormat.PackagedFourcc | VIPTools/video_image_converter.py:68-76 | `mp4v` exactly for a string longer than four ending in `mp4` in any case, `MJPG` exactly for `avi`, otherwise `ValueError` (also used by `crop_video`) |
| ContainerFormat.LegacyFourcc | VideoImageConverter.py:76-84 | the same choice without the type check, and `MP4V` for mp4 |
| ContainerFormat.OnlySuffixMatters | VIPTools/video_image_converter.py:68-72 | whatever precedes the last three characters does not matter, so no dot is required |
| ContainerFormat.EditionsAgree | VideoImageConverter.py:76-84 | both editions accept the same names and differ only in how they spell the mp4 fourcc |
| FrameCopy.TakeFrames | VIPTools/video_processer.py:44-48 | the frames read before the first failed read: each was read successfully in order, and the next read failed |
| FrameCopy.TakeFramesUnique | VIPTools/video_processer.py:44-48 | those three facts determine the copied frames |
| FrameCopy.Avi2Mp4 | VIPTools/video_processer.py:26-50 | every frame up to the first failed read is written in order; the packaged edition uses `mp4v` and releases both handles; the stand-alone edition (`VideoImageConverter.py:91-111`) uses `MP4V` and releases only the capture |
| FrameCopy.CropVideo | VIPTools/video_processer.py:53-101 | a bad name raises `ValueError` before any frame is written; otherwise the first `min(available, end − start)` frames are written in read order and both handles are released |
| FrameCopy.PrefixOfTaken | VIPTools/video_processer.py:93-98 | frames that were all read successfully are a prefix of the frames read before the first failure |
| ImageSequence.Join | VIPTools/video_image_converter.py:49 | POSIX `os.path.join(dir, name)` for a relative name: a `/` is inserted unless `dir` is empty or already ends in one |
| ImageSequence.ImageName | VIPTools/video_image_converter.py:49 | the c-th frame's file is the decimal counter plus `.jpg`, joined to the directory as `os.path.join` does |
| ImageSequence.ImageNames | VIPTools/video_image_converter.py:42-50 | frames are numbered from 1 in read order |
| ImageSequence.ImageNameInjective | VIPTools/video_image_converter.py:47-49 | distinct counters name distinct files |
| ImageSequence.ImageNamesDistinct | VIPTools/video_image_converter.py:42-50 | no two frames are written to the same file |
| ImageSequence.Video2Images | VIPTools/video_image_converter.py:26-51 | the frames before the first failed read are written, in order, to `1.jpg`, `2.jpg`, …, each to its own file (`VideoImageConverter.py:37-60` is the same loop) |
| ImageSequence.Insert | VIPTools/video_image_converter.py:79 | insertion keeps the order by key and adds exactly one element |
| ImageSequence.Sort | VIPTools/video_image_converter.py:79 | the result is ordered by key and is a permutation of the input |
| ImageSequence.BeforeFirst | VIPTools/video_image_converter.py:79 | `s.split(sep, 1)[0]`: everything before the first `sep`, or all of `s` |
| ImageSequence.BeforeFirstPrefix | VIPTools/video_image_converter.py:79 | `s.split(sep, 1)[0]` is a prefix of `s` |
| ImageSequence.BeforeFirstStops | VIPTools/video_image_converter.py:79 | that prefix is all of `s` or is followed by `sep` |
| ImageSequence.BeforeFirstIsFirst | VIPTools/video_image_converter.py:79 | no `sep` starts inside that prefix, so the split is at the first occurrence |
| ImageSequence.Basename | VIPTools/video_image_converter.py:79 | `os.path.basename`: what follows the last `/` |
| ImageSequence.BasenameShape | VIPTools/video_image_converter.py:79 | the base name is a suffix of the path without `/`, preceded by a `/` or by nothing |
| ImageSequence.SortKey | VIPTools/video_image_converter.py:79 | the key `int(basename(f.split(".jpg", 1)[0]))`: the text before the first `.jpg`, after the last `/`, parsed as an integer, raising `ValueError` when it is not one |
| ImageSequence.SortByKey | VIPTools/video_image_converter.py:79 | it succeeds exactly when every name's key parses, and then gives a key-ordered permutation; otherwise `ValueError` |
| ImageSequence.Images2Video | VIPTools/video_image_converter.py:54-81 | an empty listing returns before the name is checked; a bad name or an unparsable key raises `ValueError`; otherwise images go to a released writer, ordered by key, with the fourcc chosen from the name |
| ImageSequence.LegacyImage2Video | VideoImageConverter.py:62-89 | the same order and checks, with the stand-alone fourcc and a writer that is never released |
| ImageSequence.BeforeFirstSkips | VIPTools/video_image_converter.py:79 | splitting at `.jpg` skips a front part in which no `.jpg` starts |
| ImageSequence.BasenameAfterPrefix | VIPTools/video_image_converter.py:79 | the base name of a directory prefix followed by a plain name is that name |
| ImageSequence.ImageNameStem | VIPTools/video_image_converter.py:79 | the part of the c-th name before `.jpg` is the directory prefix and the counter |
| ImageSequence.ImageNameKey | VIPTools/video_image_converter.py:49-79 | the sort key of the c-th image name is c, when the directory holds no `.jpg` |
| ImageSequence.SortedPermutationUnique | VIPTools/video_image_converter.py:79 | a key-sorted permutation of a strictly key-increasing listing is that listing |
| ImageSequence.NumberedImagesSortBack | VIPTools/video_image_converter.py:42-80 | round trip: whatever order `glob` lists the written images in, sorting by the key gives `1.jpg … n.jpg` back in read order |
| ImageSequence.PairSorts | VIPTools/video_image_converter.py:79 | sorting two items listed against the key order swaps them |
| ImageSequence.SwapSortsBack | VIPTools/video_image_converter.py:79 | two names whose keys parse, listed with the larger key first, come out of `sorted` in key order |
| ImageSequence.NumericOrder | VIPTools/video_image_converter.py:79 | images are ordered by the number in their names: the a-th image precedes the b-th for a < b |
| ImageSequence.TwoBeforeTen | VIPTools/video_image_converter.py:79 | `2.jpg` is ordered before `10.jpg`, the reverse of their order as text |
| ImageSequence.ReadOrderRestored | VIPTools/video_image_converter.py:26-81 | the frames `video2images` wrote reach the `images2video` writer in the order they were read |

## Left out

- Probe and process spawning (`_get_video_info`, `_ffmpeg_capture`, `ffmpeg.probe`): the probe record and the decoder output are parameters. The `out_fps` filter and `quiet` only affect the external process.
- VideoCapture.Open: the frame rate goes through `eval` of the probe text (`video_capture.py:21`), which is not modelled; a rate such as `0/0` would raise there.
- VideoCapture.Release: `terminate()` is counted, but its effect on bytes still buffered in the pipe is not modelled; `hasattr(self, 'cap_process')` is always true after a successful construction.
- VideoCapture.Read: the `else` branch of `video_capture.py:50-51` is unreachable once the type check passed, and is not modelled separately.
- Threads, sleeps and timing: each call and each loop iteration is atomic. The bounded waits of `more()` are modelled by the state in which `more()` returns.
- A producer thread that dies on an exception raised inside `update` (the short-read `AssertionError`, or one from `transform`) is not modelled: the model's sources are well-formed frame sequences.
- MultiVideoStream.ReadAll: the list comprehension pops queues one at a time and can block half-way; the model takes the whole call atomically, blocking when any live queue is empty.
- MultiVideoStream.Init: construction starts each sub-stream and raises `ValueError` when one is not `running()` (`video_stream.py:114-118`). That check depends on timing and is not modelled; the model starts from opened sources. `read_type` is stored but never used by the code.
- MultiVideoStream.Round: the sub-stream `stop()` that follows its end-of-stream `None` (`video_stream.py:154`) waits for a producer that leaves its loop and releases its capture right after queuing that `None`; it is not modelled as a separate step.
- The floating-point computations in `crop_video` (`start_frame`, `end_frame` from seconds and `fps`) and the `inf`/`nan` fps fallback of `avi2mp4`: FrameCopy.CropVideo takes the two frame bounds as integers, and `capture.set` positions the outcomes at the start frame.
- `cv2` and file-system effects: `mkdir`, `imwrite` and `imread` contents, the `imread` of the first image used for the frame size, and writer parameters other than the fourcc. `glob` order is arbitrary, so listings are any permutation.
- `os.path.normpath` in the sort key is not modelled. It leaves the last path component unchanged when that component is `<digits>`, which is all the key reads after `basename`. Paths whose last component normpath would rewrite, such as `..`, are outside the model.
- ImageSequence.ImageNameKey: requires a directory without `.jpg` in it, because `split(".jpg", 1)` cuts at the first occurrence; a directory such as `a.jpgs/` makes every key raise.
- ImageSequence.Sort: it is an insertion sort that keeps equal keys in input order like Python's stable `sorted`, but stability itself is not proved. With numbered names the keys are distinct, so it does not matter for the round trip.
- ImageSequence.Images2Video and ImageSequence.LegacyImage2Video: the writer is created, and the output file opened, before `sorted` computes the keys (`video_image_converter.py:78-79`, `VideoImageConverter.py:86-87`). When a key raises `ValueError`, that writer is never released; the model's `Err(ValueError)` does not record the open writer.
- VideoStream.DeliveryInSourceOrder: each producer iteration is one atomic step, but in the code the end-of-source iteration sets `stopped` (`video_stream.py:58`) before it transforms and queues the sentinel (`video_stream.py:72-76`). In that window `more()` stops waiting and `running()` is already false while the sentinel is still to come. The code then only guarantees that every frame has been received, not the sentinel as the lemma states.
- MultiVideoStream.PerSourceDelivery: likewise, the loop body sets `streams_stopped[i]` (`video_stream.py:153`), joins the sub-stream and may set `stopped` (`video_stream.py:154-157`) before it queues the sentinel (`video_stream.py:170-173`). In that window `running(idx)` is already false and `read(idx)` returns a warned, untransformed `None`. The code then only guarantees that the source's frames have been received.
- FrameCopy.CropVideo: the capture is opened (`video_processer.py:62`) before the name is checked (`video_processer.py:69-77`). When the check raises `ValueError`, that capture is never released, because only `video_processer.py:100` releases it; the model's `Err(ValueError)` does not record the open capture.
- Decimal.ParseInt: `int()` also accepts surrounding whitespace, `_` separators and non-ASCII digits; only ASCII sign-and-digits text is modelled.
- ContainerFormat.LowerChar: `str.lower()` is modelled on ASCII capitals only; no other character lowers to `m`, `p`, `4`, `a`, `v` or `i`, so the fourcc choice is unaffected.
- ContainerFormat.LegacyFourcc: takes a string; a non-string argument to the stand-alone `image2Video` fails with whatever `len` or slicing raises, which is not modelled.
- `print`, `tqdm` progress bars, `warnings.warn`, `fire` and the `__main__` demos.
