# Drum sample queue — a Dafny model

The drum web application plays the drum samples a user ticks by putting
their streamers into a `Queue` and handing that queue to the speaker as a
single streamer. The queue is an ordered, mutable list of finite streamers.
The speaker repeatedly asks it to fill a buffer of stereo frames. The queue
fills the buffer from its front streamer. It drops a streamer from the
front as soon as that streamer reports itself drained (`ok == false`). When
the list is empty it runs a silence loop. It always reports the whole
buffer as streamed and `ok == true`.

This project models that queue (`main.go:21-62`) and the `removeIndex`
helper (`main.go:111-113`):

- `Streamers` (`streamers.dfy`) holds the finite streamers the queue sees.
  A `Source` is the list of frames it has yet to produce. Its `Stream(k)`
  writes `min(k, remaining)` frames. There are two drain conventions, and a
  source reports `ok == false` under one of them. `AfterLastFrame` reports
  it on the first call made once nothing is left, writing nothing.
  `WithLastFrame` reports it together with the last frames, with a
  positive count. `StreamInto` is a streamer writing into the window
  `samples[filled:]` of the shared `array` buffer. It writes only the
  frames it reports, as beep's `Streamer` contract asks.
- `QueueSpec` (`queue_spec.dfy`) states one `Stream` call on values.
  `Step` is one loop iteration, `Drain` repeats it until the buffer is
  full or the queue is empty, `Loop` adds the silence loop, and `Pull` is a
  whole call. `IntendedPull` is a whole call with the silence loop
  corrected. It proves the properties of these:
  - sources are drained in enqueue order;
  - a source is popped exactly when it reports drained, which happens only
    after all its frames were written;
  - a pull spans as many sources as needed;
  - the as-written silence loop zeroes a fixed set of positions
    (see "Findings").
- `DrumQueue` (`drum_queue.dfy`) is the imperative model.
  - The class `Queue` keeps the `streamers` field as a `seq` that its
    methods reassign.
  - `Stream` runs the same `for filled < len(samples)` loop over an
    `array` of frames, with the same `break` into the silence loop.
  - `Stream` is proved equal to `Pull` on the old queue and the old buffer
    contents.
  - `RemoveIndex` is a function on sequences.

Frames are pairs of integers. The queue only copies frames and writes
zeros, so the `float64` amplitudes play no part.

Four facts about the code shape the model:

- The silence loop zeroes positions `0 .. len-filled-1`, not the
  unfilled tail `samples[filled:]` (see "Findings").
- The loop has no bound on its iterations. It ends only because each
  iteration either writes a frame or pops a streamer. Every modelled
  streamer does one of the two when asked to fill a non-empty window.
- `Queue` has no query for whether it is idle. Its only operations are
  `Add`, `Stream` and `Err`.
- Nothing locks `streamers` between `Add` and `Stream`.

## Model

| member | source | states |
|---|---|---|
| `Streamers.Source.Stream` | main.go:47 | The streamer the queue asks for frames. It writes at most the window's size and fills the window while it has frames. The frames written, followed by the frames left, are the frames it had. It reports drained only once nothing is left, in either convention. When not drained on a non-empty window, it writes at least one frame. |
| `Streamers.StreamInto` | main.go:47 | A streamer writing into `samples[filled:]` changes only the positions it reports as written. It leaves the rest of the buffer as it was. |
| `QueueSpec.SilenceFill` | main.go:38-43 | The silence loop as written. Buffer positions `0 .. len-filled-1` become silence and every other position keeps its content. |
| `QueueSpec.StepStreamsFromFront` | main.go:46-54 | One iteration. It asks only the front streamer for the window from `filled` on. It advances `filled` by exactly the `n` frames that call wrote, and those frames are what the buffer holds from `filled` on. The buffer outside them is unchanged. It pops the front exactly when that call reports `ok == false`, and then all the streamer's frames are in the buffer. Otherwise the front becomes the streamer's state after the call, holding what it did not write, and the rest of the queue is untouched. |
| `QueueSpec.StepKeepsPending` | main.go:46-54 | One iteration takes the frames it writes off the front of the pending frames and leaves the rest of the queue in order. |
| `QueueSpec.Drain` | main.go:36-55 | The iterations stop only when the buffer is full or the queue is empty, never decrease `filled` and keep the buffer's length. Their termination is proved from every iteration popping a streamer or writing a frame. |
| `QueueSpec.DrainTakesPendingInOrder` | main.go:36-55 | From any `filled`, the iterations write the next pending frames in enqueue order into the room left, across any number of streamers. If the room is filled, the queue keeps exactly the rest. Otherwise every pending frame is written right after `filled`, the queue is empty and the buffer past them is unchanged. |
| `QueueSpec.LoopDrainsInOrder` | main.go:35-55 | From any `filled`, the loop fills the remaining room with the next pending frames in enqueue order, across any number of streamers. In that case the queue keeps exactly the rest. Otherwise, when fewer frames are pending than there is room, it writes all of them, empties the queue and ends in the as-written silence loop. In both cases the queue left is the old one with streamers dropped only from the front. |
| `QueueSpec.PullPlaysPendingFrames` | main.go:32-57 | If at least a buffer's worth of frames is pending, one call returns exactly the next `len(samples)` frames in enqueue order and leaves the rest pending. |
| `QueueSpec.PullShortQueue` | main.go:36-44 | If fewer frames are pending than the buffer holds, one call empties the queue. Position `i` ends as silence when `i < len - pending`. Otherwise it ends as the streamed frame when `i < pending` and keeps its old content beyond that, since the modelled streamers write only the frames they report. |
| `QueueSpec.PullEmptyQueueIsSilence` | main.go:35-43 | On an empty queue, every frame of the buffer becomes silence and the queue stays empty, whatever the buffer's length. |
| `QueueSpec.PendingAppend` | main.go:27-29 | The frames of appended streamers are played after all frames already pending. |
| `QueueSpec.PullAcrossTwoStreamers` | main.go:32-57 | Take streamers A = (1,1),(2,2),(3,3) and B = (4,4),(5,5). A call on a 4-frame buffer gives (1,1),(2,2),(3,3),(4,4), pops A and leaves B holding (5,5). This holds in either drain convention. |
| `QueueSpec.SecondPullLosesFrame` | main.go:39-42 | On the queue left holding B = (5,5), a call on a 3-frame buffer gives silence, silence and the buffer's old third frame, and empties the queue. Frame (5,5) is never played. |
| `QueueSpec.IntendedSilenceFill` | main.go:39-42 | The corrected silence fill keeps the frames streamed before `filled` and sets every position from `filled` on to silence. |
| `QueueSpec.IntendedPull` | main.go:32-57 | A call with the corrected silence loop leaves a buffer of the same length. |
| `QueueSpec.DrainShortQueue` | main.go:36-55 | When fewer frames are pending than the buffer holds, the iterations from `filled == 0` write all of them at the front, leave the rest of the buffer as it was and empty the queue. |
| `QueueSpec.IntendedPullIsConcatenation` | main.go:36-44 | With the corrected silence loop, a call that outruns the queue returns every pending frame in enqueue order followed by silence. When nothing was pending, the as-written call gives the same result. |
| `QueueSpec.IntendedPullAgreesWhenFull` | main.go:36-44 | When at least a buffer's worth of frames is pending, the silence loop never runs, so the corrected call and the call as written agree. |
| `DrumQueue.Queue.constructor` | main.go:22-24 | A queue starts with no streamers. |
| `DrumQueue.Queue.Add` | main.go:27-29 | Appends the given streamers, in their order, behind the queued ones and leaves the queued ones unchanged. An empty argument leaves the queue as it was. The pending frames gain the new streamers' frames at the back. |
| `DrumQueue.Queue.Stream` | main.go:32-57 | Always returns `n == len(samples)` and `ok == true`. The new queue and buffer are exactly what `Pull` gives for the old ones, so every `QueueSpec` property above holds of each call. |
| `DrumQueue.Queue.Err` | main.go:60-62 | The queue never reports an error. |
| `DrumQueue.RemoveIndex` | main.go:111-113 | For an index inside the slice, the result is one shorter. It keeps the elements before the index in place and shifts the ones after it down by one. Its multiset of elements is the input's minus the removed element. |

## Findings

| source | as written | input that shows it | evidently intended | confidence | as-written member | corrected member |
|---|---|---|---|---|---|---|
| main.go:39-42 | The silence loop ranges over the offsets of the window `samples[filled:]` but zeroes those offsets in the whole buffer. | The queue holds one streamer with one frame (5,5), and `Stream` is called on a 3-frame buffer. Frame (5,5) is written at position 0. Positions 0 and 1 are then zeroed, so (5,5) is lost. Position 2 keeps stale data when the streamer writes only the frame it reports; one that clears its whole window leaves a zero there instead. | Zero `samples[filled:]` so that the streamed frames survive and the rest is silence. | high, by proof; not executed | `QueueSpec.SecondPullLosesFrame` | `QueueSpec.IntendedPullIsConcatenation` |

`Queue.Stream` keeps the behaviour as written, since that is what the
program does. The intended behaviour is the corrected fill,
`IntendedSilenceFill`, together with the proof that it would give the
pending frames followed by silence. The two calls agree whenever nothing
is pending, and whenever a buffer's worth or more is pending.

## Left out

- HTTP routing, template rendering, form parsing and printing in `main`. These are web plumbing.
- `getStreamer`, `getStreamers`, `playAudio`, `checkIfExists`, `checkError`: file opening, WAV decoding, `os.Stat` and `log.Fatal`. These are I/O and process exit. Streamers enter the model as values.
- `beep.Mix`, `speaker.Init` and `speaker.Play`. These are a foreign audio library and playback hardware.
- Concurrency between the speaker's callback and the HTTP handlers. The code has no lock, and each form request builds a fresh local queue.
- The commented-out `removeInvalidHidden`, because it is dead code.
- `static/js/checkbox.js`, which only toggles checkbox styles in the browser.
- `Streamers.Source.Stream`: streamers are finite lists of frames that make progress on every call. A streamer that keeps answering `(0, true)` would make the code loop forever, and it is not modelled.
- `Streamers.StreamInto`: a streamer is taken to write only `samples[filled:filled+n]`, as beep's `Streamer` contract asks. Go hands it the whole window `samples[filled:]`. A streamer that clears more of it, as `beep.Mix` does for up to 512 frames, would leave zeros where the model keeps the old content.
- `DrumQueue.Queue.Stream`: streamers are values owned by the queue. If the same streamer object were queued twice, its shared state would not be modelled.
- `DrumQueue.RemoveIndex`: the model returns a new sequence. It does not model that the append reuses the argument's backing array, which also shifts the caller's slice in place.
- `DrumQueue.Queue.Err`: the error value is `Option<string>`, not Go's `error` interface. It is always `None`.
