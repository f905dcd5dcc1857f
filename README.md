# Gesture pipeline of Signn, modelled in Dafny

This project models the realtime core of the Signn sign-language
translator. It has two parts. The first is the `WebcamWidget` side
(`gui.py`). Its switch is off at start-up. On a 50 ms tick, and only while
the switch is on and the camera read succeeds, it offers the frame to a
10-slot frame queue and takes at most one recognition result off the result
queue; otherwise the tick touches neither queue. Each result
it takes goes through a two-second cooldown that builds an accumulating
text. The second part is the background `GestureRecognizerThread`
(`gestures.py`). Its loop dequeues frames and uses a frame counter to send
one frame in every `frame_skip` to the recognizer. It pushes one result per
processed frame onto the result queue.

Layout:

- `queues.dfy`, module `Queues`: Python's `queue.Queue` as a class `Queue<T>`. It has an `items` sequence and a `maxSize` (0 = unbounded), with `full`, `empty`, `put_nowait` and `get`. The widget and the worker share the same two queue objects, as in the source.
- `gestures.dfy`, module `Gestures`: frames, categories and detection results; the class `GestureRecognizerThread` with `detect_hand_gesture`, one pass of the `run` loop (`Step`), the loop itself (`Run`) and `stop`. It also holds the pure specification of a pass (`StepSpec`, `Steps`), the skip policy (`Processed`) and the lemmas about them.
- `gui.dfy`, module `Gui`: the class `WebcamWidget` with `__init__`, `toggle_switch`, `update_frame`, `update_gesture_display`, `clear_console` and `closeEvent`. It also holds the pure specification of the cooldown (`Updated`, `UpdatedAll`) and of the guarded put (`Offer`, `OfferAll`), with their lemmas.

Modelling choices:

- Time is an integer number of milliseconds passed in as `now`. The 2-second cooldown is 2000.
- The recognizer is an opaque function `Frame -> RecognitionResult` given to the constructors. Each hand's ranked category list is non-empty by its type, so `hand_gestures[0]` always exists.
- In a sequential model, a blocking `get(timeout=1)` gives up (`queue.Empty`) exactly when the queue is empty. So a pass that finds the frame queue empty is the timeout path.
- `frame_skip` is 1 after construction, as in the source. The properties for a general skip `k >= 1` are proved on the specification functions, which take `frameSkip` as a parameter.

Two points of the code's own behaviour are worth stating:

- **First emission.** `last_update_time` starts at 0, and an emission needs `current_time - last_update_time >= 2` (gui.py:61, gui.py:207). The source reads `time.time()`, an epoch clock far past 2 s, so the first result taken after start-up always emits. `FirstEmissionAfterStartUp` states the threshold for any clock: from start-up a call emits exactly when the clock reads 2 s or more. `CooldownScenario` runs a short sequence of calls from start-up that begins at any such time.
- **Recognizer failures.** `run` catches only `queue.Empty` (gestures.py:40), so the model gives no recovery from a failing recognizer call.

## Model

| member | source | states |
|---|---|---|
| Queues.Queue.constructor | gui.py:55-56 | a new queue is empty and has the given capacity (10 for frames, unbounded for results) |
| Queues.Queue.PutNowait | gui.py:187-188 | appends the item exactly when the queue is not full; otherwise it reports failure and the queue is unchanged; the length never exceeds the capacity |
| Queues.Queue.Get | gestures.py:32 | removes and returns the head in FIFO order, or reports empty and changes nothing |
| Gestures.GestureRecognizerThread.constructor | gestures.py:10-17 | the worker shares the given queues, starts running with `frameSkip == 1`, and the counter is 0 |
| Gestures.GestureRecognizerThread.DetectHandGesture | gestures.py:44-70 | one `(name, score)` pair per detected hand, in detection order, from that hand's top category; empty when no hand is detected; the two returned lists are equal |
| Gestures.GestureRecognizerThread.Step | gestures.py:29-42 | one loop pass: the new counter and queues are `StepSpec` of the old ones; `running` and `frameSkip` are unchanged |
| Gestures.GestureRecognizerThread.Run | gestures.py:25-42 | the loop runs only while `running` and nothing in it clears the flag; once stopped, no pass happens and the state is unchanged |
| Gestures.GestureRecognizerThread.Stop | gestures.py:72-74 | `running` becomes false; no member ever sets it back to true |
| Gestures.TimeoutChangesNothing | gestures.py:40-42 | passes over an empty frame queue leave the counter and both queues unchanged |
| Gestures.StepDequeuesOne | gestures.py:30-39 | a pass that finds a frame removes exactly that frame and adds 1 to the counter; it pushes that frame's result iff `count % frameSkip == 0`, and otherwise pushes nothing |
| Gestures.ProcessedSplit | gestures.py:27-39 | which frames are processed depends only on the sequence of frames actually dequeued, however it is split up by timeouts |
| Gestures.Drain | gestures.py:27-42 | after n passes over n queued frames: the counter is up by n, the first n frames are gone in order, and the results of exactly the selected frames are appended in dequeue order |
| Gestures.ExactlyOneOfK | gestures.py:30-37 | of any `frameSkip` consecutive dequeued frames exactly one is processed: the one where the counter reaches a multiple of `frameSkip` |
| Gestures.SkipOneProcessesAll | gestures.py:15 | with the default `frameSkip = 1`, every dequeued frame is processed |
| Gestures.OneResultPerKFrames | gestures.py:30-39 | `k` passes of a worker with `frameSkip = k` over at least `k` queued frames add exactly one result |
| Gestures.DefaultSkipResultsInOrder | gestures.py:15-34 | with the default skip, draining n frames appends exactly their n results, in FIFO order |
| Gui.WebcamWidget.constructor | gui.py:48-65 | both queues empty, worker started and running, switch off, empty text and console, no last gesture, last update at time 0 |
| Gui.WebcamWidget.ToggleSwitch | gui.py:160-169 | flips `activated` and changes nothing else, so two toggles restore it |
| Gui.WebcamWidget.UpdateGestureDisplay | gui.py:197-221 | the new text, last gesture and update time are `Updated` of the old ones; the console shows exactly the whole text afterwards |
| Gui.WebcamWidget.UpdateFrame | gui.py:171-195 | while on and after a successful read: the frame is queued only if the queue has room, and at most one result is removed and ingested, only when one is waiting; while off or after a failed read, neither queue nor the display state changes |
| Gui.WebcamWidget.ClearConsole | gui.py:252-255 | text and console become empty; the last gesture, the update time and the switch are kept |
| Gui.WebcamWidget.CloseEvent | gui.py:235-240 | the worker's `running` flag is cleared |
| Gui.LabelsAppend | gui.py:208-212 | the labels appended for a list are those of its parts, concatenated in list order |
| Gui.CooldownChangesNothing | gui.py:206-217 | any number of calls within 2 s of the last update, whatever they carry, leave text, last gesture and update time unchanged |
| Gui.FirstCallAfterCooldown | gui.py:207-217 | after any suppressed calls, the first call once 2 s have passed applies exactly one update and stamps its time |
| Gui.Emission | gui.py:207-217 | an emission with detections appends every label in order and keeps the final label; one without detections appends exactly one space and clears the last gesture; both stamp the time |
| Gui.TextOnlyGrows | gui.py:208-215 | over any run of calls the old text stays a prefix of the new one |
| Gui.UpdateTimeMonotone | gui.py:207-217 | for any call times, even a clock that runs backwards, the last update time never decreases, and it is always either its old value or one of the call times |
| Gui.FirstEmissionAfterStartUp | gui.py:207 | from the start-up state, a call changes the display state iff it comes at 2 s or later |
| Gui.CooldownScenario | gui.py:206-217 | from start-up, for any first call time `t` of 2 s or later (an epoch clock always is), calls at `t`, `t` + 0.5 s, `t` + 1.9 s (label `A`) and `t` + 2.1 s (no detection) give the texts "A", "A" and "A " |
| Gui.OfferBounded | gui.py:187-188 | for a bounded queue, a guarded put keeps the queue within capacity; on a full queue the frame is dropped and the queue is unchanged |
| Gui.OfferAllWithRoom | gui.py:187-188 | on an unbounded queue, or while a bounded one has room, every offered frame is accepted and queued in order |
| Gui.OfferAllWhenFull | gui.py:187-188 | on a full bounded queue, every offered frame is rejected and the queue stays as it is |
| Gui.OfferAllSplit | gui.py:187-188 | offering two batches of frames is the same as offering the first batch and then the second |
| Gui.Backpressure | gui.py:55 | offering 11 frames to the empty 10-slot queue with nothing dequeued accepts the first 10 in order and rejects only the last |

## Left out

- Qt widgets and layout, the privacy dialog, the GitHub button, pixmap/QImage conversion and the blurred preview: this is presentation only. The annotated image handed to `update_gesture_display` is not displayed in the model.
- Camera capture (`cap.read`, `cap is not None`), colour conversion, resizing and landmark drawing: these are I/O and pixel arithmetic. A frame is an opaque value, `None` stands for a failed read, and the frame is queued as read. The annotated image equals the input frame.
- The MediaPipe recognizer and its hard-coded model path: a foreign call, modelled as an opaque function given to the constructors.
- Threads, queue locking, `thread.start()` and the 1-second blocking timeout: the two loops are modelled as sequential steps over shared queue objects, and a timeout is a `get` on an empty queue.
- The per-gesture console lines `"Gesture i: label (score)"` and the two-decimal formatting: the same call overwrites them with the plain text, so only the final console text is modelled. Scores are `real` values and are not formatted.
- `update_cooldown`: it is set in `__init__` and never read.
- Gestures.GestureRecognizerThread.Run: it stops after a given number of passes, because the source loop ends only when another thread calls `stop`.
- Recovery from a failing recognizer call: the source does not catch it, so the model promises nothing about it.
