/** The widget side of the pipeline (`WebcamWidget`): on a timer tick, while
    the switch is on (it starts off) and the camera read succeeds, it offers
    the captured frame to the bounded frame queue and takes at most one
    result off the result queue; each result taken goes through the
    two-second cooldown that turns per-frame detections into an
    accumulating text. Time is integer milliseconds. */
module Gui {
  import opened Queues
  import opened Gestures

  /** `queue.Queue(maxsize=10)` for frames. */
  const FrameQueueSize: nat := 10
  /** `gesture_print_cooldown = 2` seconds. */
  const GesturePrintCooldown: int := 2000

  /** The coalescer's state: the accumulated text, the last label emitted
      and the time of the last emission. */
  datatype DisplayState = DisplayState(
    detectedText: string,
    lastGesture: Option<string>,
    lastUpdateTime: int)

  /** The state `__init__` leaves behind. */
  const StartUp := DisplayState("", None, 0)

  /** The labels of `cats`, concatenated in list order. */
  function Labels(cats: seq<Detection>): (r: string) {
    if cats == [] then "" else Labels(cats[..|cats| - 1]) + cats[|cats| - 1].0
  }

  /** At least the cooldown has passed since the last emission. */
  predicate CooledDown(s: DisplayState, now: int) {
    now - s.lastUpdateTime >= GesturePrintCooldown
  }

  /** What `update_gesture_display` does to the coalescer's state. */
  function Updated(s: DisplayState, cats: seq<Detection>, now: int): (r: DisplayState) {
    if !CooledDown(s, now) then s
    else if cats == [] then DisplayState(s.detectedText + " ", None, now)
    else DisplayState(s.detectedText + Labels(cats), Some(cats[|cats| - 1].0), now)
  }

  /** One call of `update_gesture_display`: the detections and the time. */
  datatype Call = Call(cats: seq<Detection>, now: int)

  /** A run of calls, in order. */
  function UpdatedAll(s: DisplayState, calls: seq<Call>): (r: DisplayState)
    decreases |calls|
  {
    if calls == [] then s else UpdatedAll(Updated(s, calls[0].cats, calls[0].now), calls[1..])
  }

  /** The frame queue after one `put_nowait` of `f` guarded by `full()`;
      as for `Queue.Full`, a capacity of 0 means unbounded. */
  function Offer(q: seq<Frame>, f: Frame, cap: nat): (r: seq<Frame>) {
    if 0 < cap <= |q| then q else q + [f]
  }

  /** Offering `frames` one per tick, with nothing dequeued in between:
      the final queue and, per frame, whether it was accepted. */
  function OfferAll(q: seq<Frame>, frames: seq<Frame>, cap: nat): (r: (seq<Frame>, seq<bool>))
    decreases |frames|
  {
    if frames == [] then (q, [])
    else
      var rest := OfferAll(Offer(q, frames[0], cap), frames[1..], cap);
      (rest.0, [!(0 < cap <= |q|)] + rest.1)
  }

  class WebcamWidget {
    /** `activated`, 0 or 1 in the source. */
    var activated: bool
    var lastFrame: Option<Frame>
    const frameQueue: Queue<Frame>
    const resultQueue: Queue<DetectionResult>
    const gestureRecognizerThread: GestureRecognizerThread
    var lastUpdateTime: int
    var detectedText: string
    var lastGesture: Option<string>
    /** The plain text the console shows. */
    var console: string

    predicate Valid()
      reads this, frameQueue, resultQueue, gestureRecognizerThread
    {
      frameQueue.maxSize == FrameQueueSize && resultQueue.maxSize == 0 &&
      gestureRecognizerThread.frameQueue == frameQueue &&
      gestureRecognizerThread.resultQueue == resultQueue &&
      gestureRecognizerThread.Valid() &&
      console == detectedText
    }

    function View(): DisplayState
      reads this
    {
      DisplayState(detectedText, lastGesture, lastUpdateTime)
    }

    /** `__init__`: both queues empty, the worker started, switch off,
        empty text, no gesture, last update at time 0. */
    constructor (recognizer: Frame -> RecognitionResult)
      ensures Valid()
      ensures fresh(frameQueue) && fresh(resultQueue) && fresh(gestureRecognizerThread)
      ensures !activated && lastFrame == None && View() == StartUp
      ensures frameQueue.items == [] && resultQueue.items == []
      ensures gestureRecognizerThread.running && gestureRecognizerThread.frameSkip == 1
      ensures gestureRecognizerThread.frameCount == 0 && gestureRecognizerThread.recognizer == recognizer
    {
      activated := false;
      lastFrame := None;
      var fq := new Queue<Frame>(FrameQueueSize);
      var rq := new Queue<DetectionResult>(0);
      frameQueue := fq;
      resultQueue := rq;
      gestureRecognizerThread := new GestureRecognizerThread(fq, rq, recognizer);
      lastUpdateTime := 0;
      detectedText := "";
      lastGesture := None;
      console := "";
    }

    /** `toggle_switch`: flips the switch and nothing else. */
    method ToggleSwitch()
      requires Valid()
      modifies this`activated
      ensures Valid()
      ensures activated == !old(activated)
    {
      if activated {
        activated := false;
      } else {
        activated := true;
      }
    }

    /** `update_gesture_display`: after the cooldown, append every label (or
        one space for an empty list), remember the last label (or none) and
        stamp the time; in every case the console then shows the whole
        accumulated text. */
    method UpdateGestureDisplay(gestureCategories: seq<Detection>, now: int)
      requires Valid()
      modifies this`detectedText, this`lastGesture, this`lastUpdateTime, this`console
      ensures Valid()
      ensures View() == Updated(old(View()), gestureCategories, now)
      ensures console == detectedText
    {
      if now - lastUpdateTime >= GesturePrintCooldown {
        if |gestureCategories| > 0 {
          for i := 0 to |gestureCategories|
            invariant detectedText == old(detectedText) + Labels(gestureCategories[..i])
            invariant i > 0 ==> lastGesture == Some(gestureCategories[i - 1].0)
            invariant lastUpdateTime == old(lastUpdateTime)
          {
            assert gestureCategories[..i + 1][..i] == gestureCategories[..i];
            detectedText := detectedText + gestureCategories[i].0;
            lastGesture := Some(gestureCategories[i].0);
          }
          assert gestureCategories[..|gestureCategories|] == gestureCategories;
        } else {
          detectedText := detectedText + " ";
          lastGesture := None;
        }
        lastUpdateTime := now;
      }
      console := detectedText;
    }

    /** `update_frame` on one timer tick; `read` is what the camera gave
        (`None` when the read failed). While switched on, the frame is put
        on the frame queue unless it is full, and at most one waiting
        result is taken and displayed. While off, no queue is touched. */
    method UpdateFrame(read: Option<Frame>, now: int)
      requires Valid()
      modifies this, frameQueue, resultQueue
      ensures Valid()
      ensures activated == old(activated)
      ensures lastFrame == if read.Some? then read else old(lastFrame)
      ensures frameQueue.items ==
        if read.Some? && activated then Offer(old(frameQueue.items), read.value, FrameQueueSize)
        else old(frameQueue.items)
      ensures resultQueue.items ==
        if read.Some? && activated && old(resultQueue.items) != [] then old(resultQueue.items)[1..]
        else old(resultQueue.items)
      ensures View() ==
        if read.Some? && activated && old(resultQueue.items) != []
        then Updated(old(View()), old(resultQueue.items)[0].gestureCategories, now)
        else old(View())
    {
      if read.Some? {
        var frame := read.value;
        lastFrame := Some(frame);
        if activated {
          if !frameQueue.Full() {
            var _ := frameQueue.PutNowait(frame);
          }
          if !resultQueue.Empty() {
            var result := resultQueue.Get();
            UpdateGestureDisplay(result.value.gestureCategories, now);
          }
        }
      }
    }

    /** `clear_console`: empties the text; the last gesture and the time of
        the last update are kept. */
    method ClearConsole()
      requires Valid()
      modifies this`detectedText, this`console
      ensures Valid()
      ensures detectedText == "" && console == ""
    {
      console := "";
      detectedText := "";
    }

    /** `closeEvent`: stops the worker. */
    method CloseEvent()
      requires Valid()
      modifies gestureRecognizerThread`running
      ensures Valid()
      ensures !gestureRecognizerThread.running
    {
      gestureRecognizerThread.Stop();
    }
  }

  // ---------------------------------------------------------------------
  // Properties of the coalescer

  /** The labels of two lists are the labels of the first followed by
      those of the second. */
  lemma {:induction false} LabelsAppend(a: seq<Detection>, b: seq<Detection>)
    ensures Labels(a + b) == Labels(a) + Labels(b)
    decreases |b|
  {
    if b == [] {
      assert a + b == a;
    } else {
      var b0 := b[..|b| - 1];
      assert (a + b)[..|a + b| - 1] == a + b0;
      LabelsAppend(a, b0);
    }
  }

  /** Within the cooldown nothing changes, however many calls come in and
      whatever they carry. */
  lemma {:induction false} CooldownChangesNothing(s: DisplayState, calls: seq<Call>)
    requires forall i :: 0 <= i < |calls| ==> calls[i].now - s.lastUpdateTime < GesturePrintCooldown
    ensures UpdatedAll(s, calls) == s
  {
    if calls != [] {
      assert Updated(s, calls[0].cats, calls[0].now) == s;
      CooldownChangesNothing(s, calls[1..]);
    }
  }

  /** After any number of suppressed calls, the first call once the
      cooldown has passed applies exactly one update. */
  lemma {:induction false} FirstCallAfterCooldown(s: DisplayState, quiet: seq<Call>, cats: seq<Detection>, now: int)
    requires forall i :: 0 <= i < |quiet| ==> quiet[i].now - s.lastUpdateTime < GesturePrintCooldown
    requires now - s.lastUpdateTime >= GesturePrintCooldown
    ensures UpdatedAll(s, quiet + [Call(cats, now)]).lastUpdateTime == now
    ensures UpdatedAll(s, quiet + [Call(cats, now)]) == Updated(s, cats, now)
  {
    if quiet == [] {
      assert UpdatedAll(Updated(s, cats, now), []) == Updated(s, cats, now);
    } else {
      assert (quiet + [Call(cats, now)])[0] == quiet[0];
      assert (quiet + [Call(cats, now)])[1..] == quiet[1..] + [Call(cats, now)];
      FirstCallAfterCooldown(s, quiet[1..], cats, now);
    }
  }

  /** An emission with detections appends all their labels in list order and
      remembers the final label; an emission without any appends one space
      and forgets the label. */
  lemma Emission(s: DisplayState, cats: seq<Detection>, now: int)
    requires CooledDown(s, now)
    ensures cats != [] ==> Updated(s, cats, now).detectedText == s.detectedText + Labels(cats[..|cats| - 1]) + cats[|cats| - 1].0
    ensures cats != [] ==> Updated(s, cats, now).lastGesture == Some(cats[|cats| - 1].0)
    ensures cats == [] ==> Updated(s, cats, now).detectedText == s.detectedText + " "
    ensures cats == [] ==> Updated(s, cats, now).lastGesture == None
    ensures Updated(s, cats, now).lastUpdateTime == now
  {
  }

  /** The text only grows: every run of calls keeps the old text as a
      prefix. */
  lemma {:induction false} TextOnlyGrows(s: DisplayState, calls: seq<Call>)
    ensures s.detectedText <= UpdatedAll(s, calls).detectedText
    decreases |calls|
  {
    if calls != [] {
      var s' := Updated(s, calls[0].cats, calls[0].now);
      TextOnlyGrows(s', calls[1..]);
    }
  }

  /** Whatever the call times, the time of the last update never
      decreases (an emission needs `now` at least 2 s past it), and it is
      always either its old value or one of the times seen. */
  lemma {:induction false} UpdateTimeMonotone(s: DisplayState, calls: seq<Call>)
    ensures s.lastUpdateTime <= UpdatedAll(s, calls).lastUpdateTime
    ensures UpdatedAll(s, calls).lastUpdateTime == s.lastUpdateTime ||
      exists i :: 0 <= i < |calls| && UpdatedAll(s, calls).lastUpdateTime == calls[i].now
    decreases |calls|
  {
    if calls != [] {
      var s' := Updated(s, calls[0].cats, calls[0].now);
      UpdateTimeMonotone(s', calls[1..]);
      var t := UpdatedAll(s, calls).lastUpdateTime;
      if t != s'.lastUpdateTime {
        var i :| 0 <= i < |calls[1..]| && t == calls[1..][i].now;
        assert t == calls[i + 1].now;
      } else if t != s.lastUpdateTime {
        assert t == calls[0].now;
      }
    }
  }

  /** Since the last update time starts at 0, the first call after start-up
      emits exactly when the clock reads 2 s or more; the source reads an
      epoch clock, which always does, so its first result always emits. */
  lemma FirstEmissionAfterStartUp(cats: seq<Detection>, now: int)
    ensures Updated(StartUp, cats, now) != StartUp <==> now >= GesturePrintCooldown
  {
  }

  /** From start-up, three results carrying `A` and one carrying nothing,
      ingested at any time `t` of 2 s or later and then 0.5 s, 1.9 s and
      2.1 s after it: the first emits `A`, the next two are suppressed, and
      the last appends a space. */
  lemma CooldownScenario(t: int)
    requires t >= GesturePrintCooldown
    ensures var a := [("A", 0.9)];
      var calls := [Call(a, t), Call(a, t + 500), Call(a, t + 1900), Call([], t + 2100)];
      UpdatedAll(StartUp, calls[..1]) == DisplayState("A", Some("A"), t) &&
      UpdatedAll(StartUp, calls[..3]) == DisplayState("A", Some("A"), t) &&
      UpdatedAll(StartUp, calls) == DisplayState("A ", None, t + 2100)
  {
    var a := [("A", 0.9)];
    var calls := [Call(a, t), Call(a, t + 500), Call(a, t + 1900), Call([], t + 2100)];
    assert Labels(a) == "A" by {
      assert a[..0] == [];
    }
    var s1 := DisplayState("A", Some("A"), t);
    assert Updated(StartUp, a, t) == s1;
    assert Updated(s1, a, t + 500) == s1 && Updated(s1, a, t + 1900) == s1;
    var s4 := DisplayState("A ", None, t + 2100);
    assert Updated(s1, [], t + 2100) == s4;
    assert UpdatedAll(s1, calls[3..]) == s4 by {
      assert calls[3..][0] == Call([], t + 2100) && calls[3..][1..] == [];
    }
    assert UpdatedAll(s1, calls[2..]) == s4 by {
      assert calls[2..][0] == calls[2] && calls[2..][1..] == calls[3..];
    }
    assert UpdatedAll(s1, calls[1..]) == s4 by {
      assert calls[1..][0] == calls[1] && calls[1..][1..] == calls[2..];
    }
    assert UpdatedAll(s1, calls[2..3]) == s1 by {
      assert calls[2..3][0] == calls[2] && calls[2..3][1..] == [];
    }
    assert UpdatedAll(s1, calls[1..3]) == s1 by {
      assert calls[1..3][0] == calls[1] && calls[1..3][1..] == calls[2..3];
    }
    assert calls[..1][1..] == [] && calls[..3][1..] == calls[1..3];
  }

  // ---------------------------------------------------------------------
  // Properties of the frame hand-off

  /** A guarded put never takes the queue past its capacity, and a full
      queue drops the frame and stays as it was. */
  lemma OfferBounded(q: seq<Frame>, f: Frame, cap: nat)
    requires 0 < cap && |q| <= cap
    ensures |Offer(q, f, cap)| <= cap
    ensures |q| == cap ==> Offer(q, f, cap) == q
    ensures |q| < cap ==> Offer(q, f, cap) == q + [f]
  {
  }

  /** While there is room, every offered frame is accepted, in order. */
  lemma {:induction false} OfferAllWithRoom(q: seq<Frame>, frames: seq<Frame>, cap: nat)
    requires cap == 0 || |q| + |frames| <= cap
    ensures OfferAll(q, frames, cap).0 == q + frames
    ensures |OfferAll(q, frames, cap).1| == |frames|
    ensures forall i :: 0 <= i < |frames| ==> OfferAll(q, frames, cap).1[i]
    decreases |frames|
  {
    if frames != [] {
      OfferAllWithRoom(q + [frames[0]], frames[1..], cap);
      assert q + [frames[0]] + frames[1..] == q + frames;
    }
  }

  /** Once full, every offered frame is rejected and the queue stays. */
  lemma {:induction false} OfferAllWhenFull(q: seq<Frame>, frames: seq<Frame>, cap: nat)
    requires 0 < cap <= |q|
    ensures OfferAll(q, frames, cap).0 == q
    ensures |OfferAll(q, frames, cap).1| == |frames|
    ensures forall i :: 0 <= i < |frames| ==> !OfferAll(q, frames, cap).1[i]
    decreases |frames|
  {
    if frames != [] {
      OfferAllWhenFull(q, frames[1..], cap);
    }
  }

  /** Offering `cap + 1` frames to an empty queue with nothing dequeued:
      the first `cap` are accepted in submission order and the last one
      is the only one rejected. */
  lemma Backpressure(frames: seq<Frame>, cap: nat)
    requires 0 < cap && |frames| == cap + 1
    ensures OfferAll([], frames, cap).0 == frames[..cap]
    ensures |OfferAll([], frames, cap).1| == cap + 1
    ensures forall i :: 0 <= i < cap ==> OfferAll([], frames, cap).1[i]
    ensures !OfferAll([], frames, cap).1[cap]
  {
    OfferAllSplit([], frames[..cap], frames[cap..], cap);
    assert frames[..cap] + frames[cap..] == frames;
    OfferAllWithRoom([], frames[..cap], cap);
    assert [] + frames[..cap] == frames[..cap];
    OfferAllWhenFull(frames[..cap], frames[cap..], cap);
  }

  /** Offering two batches is offering the first, then the second. */
  lemma {:induction false} OfferAllSplit(q: seq<Frame>, a: seq<Frame>, b: seq<Frame>, cap: nat)
    ensures OfferAll(q, a + b, cap).0 == OfferAll(OfferAll(q, a, cap).0, b, cap).0
    ensures OfferAll(q, a + b, cap).1 == OfferAll(q, a, cap).1 + OfferAll(OfferAll(q, a, cap).0, b, cap).1
    decreases |a|
  {
    if a == [] {
      assert a + b == b;
    } else {
      assert (a + b)[0] == a[0] && (a + b)[1..] == a[1..] + b;
      OfferAllSplit(Offer(q, a[0], cap), a[1..], b, cap);
    }
  }
}
