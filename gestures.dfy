/** The recognition worker (`GestureRecognizerThread`): it pulls frames from
    the shared frame queue, sends one frame in every `frameSkip` to the
    recognizer, and pushes what it finds onto the shared result queue.
    The recognizer itself is an opaque function given at construction. */
module Gestures {
  import opened Queues

  /** A captured image, treated as an opaque value. */
  datatype Frame = Frame(pixels: seq<int>)

  /** One classification of one hand: a gesture name and its score. */
  datatype Category = Category(categoryName: string, score: real)

  /** The categories found for one hand, best first; never empty. */
  type RankedCategories = s: seq<Category> | |s| > 0 witness [Category("", 0.0)]

  /** What the recognizer returns for one image: one ranked list per hand,
      in detection order. */
  datatype RecognitionResult = RecognitionResult(gestures: seq<RankedCategories>)

  /** One `(category_name, score)` pair as handed to the widget. */
  type Detection = (string, real)

  /** What the worker puts on the result queue for one processed frame. */
  datatype DetectionResult = DetectionResult(
    annotatedImage: Frame,
    gestureCategories: seq<Detection>,
    predictions: seq<Detection>)

  /** The top category of one hand as a detection pair. */
  function TopOf(hand: RankedCategories): (r: Detection) {
    (hand[0].categoryName, hand[0].score)
  }

  /** The top category of every hand, in detection order. */
  function TopGestures(hands: seq<RankedCategories>): (r: seq<Detection>) {
    seq(|hands|, i requires 0 <= i < |hands| => TopOf(hands[i]))
  }

  /** The result the worker builds for one processed frame. */
  function Detect(recognizer: Frame -> RecognitionResult, frame: Frame): (r: DetectionResult) {
    var top := TopGestures(recognizer(frame).gestures);
    DetectionResult(frame, top, top)
  }

  /** `Detect` applied to each frame, in order. */
  function DetectAll(recognizer: Frame -> RecognitionResult, frames: seq<Frame>): (r: seq<DetectionResult>) {
    if frames == [] then []
    else DetectAll(recognizer, frames[..|frames| - 1]) + [Detect(recognizer, frames[|frames| - 1])]
  }

  /** The frames the skip policy sends to the recognizer, out of `frames`
      dequeued in order while the counter runs from `count` upwards. */
  function Processed(frames: seq<Frame>, count: nat, frameSkip: nat): (r: seq<Frame>)
    requires frameSkip >= 1
  {
    if frames == [] then []
    else (if count % frameSkip == 0 then [frames[0]] else []) + Processed(frames[1..], count + 1, frameSkip)
  }

  /** The worker's state as the loop in `run` sees it: its frame counter and
      the two queues. */
  datatype WorkerState = WorkerState(
    frameCount: nat,
    frameQueue: seq<Frame>,
    resultQueue: seq<DetectionResult>)

  /** One pass of the body of the `while self.running` loop in `run`. */
  function StepSpec(w: WorkerState, frameSkip: nat, recognizer: Frame -> RecognitionResult): (r: WorkerState)
    requires frameSkip >= 1
  {
    if w.frameQueue == [] then w  // queue.Empty: continue, counter untouched
    else if w.frameCount % frameSkip == 0 then
      WorkerState(w.frameCount + 1, w.frameQueue[1..], w.resultQueue + [Detect(recognizer, w.frameQueue[0])])
    else
      WorkerState(w.frameCount + 1, w.frameQueue[1..], w.resultQueue)
  }

  /** `n` passes of the loop body. */
  function Steps(w: WorkerState, frameSkip: nat, recognizer: Frame -> RecognitionResult, n: nat): (r: WorkerState)
    requires frameSkip >= 1
  {
    if n == 0 then w else StepSpec(Steps(w, frameSkip, recognizer, n - 1), frameSkip, recognizer)
  }

  class GestureRecognizerThread {
    const frameQueue: Queue<Frame>
    const resultQueue: Queue<DetectionResult>
    const recognizer: Frame -> RecognitionResult
    var running: bool
    var frameSkip: nat
    /** The local `frame_count` of `run`, kept across the modelled passes. */
    var frameCount: nat

    predicate Valid()
      reads this, frameQueue, resultQueue
    {
      frameQueue as object != resultQueue as object &&
      frameQueue.Valid() && resultQueue.Valid() &&
      resultQueue.maxSize == 0 &&
      frameSkip >= 1
    }

    function State(): WorkerState
      reads this, frameQueue, resultQueue
    {
      WorkerState(frameCount, frameQueue.items, resultQueue.items)
    }

    /** `__init__` followed by the start of `run`: running, skipping nothing,
        counter at 0. Loading the model is the given `recognizer`. */
    constructor (frameQueue: Queue<Frame>, resultQueue: Queue<DetectionResult>,
                 recognizer: Frame -> RecognitionResult)
      requires frameQueue as object != resultQueue as object
      requires frameQueue.Valid() && resultQueue.Valid() && resultQueue.maxSize == 0
      ensures Valid()
      ensures this.frameQueue == frameQueue && this.resultQueue == resultQueue
      ensures this.recognizer == recognizer
      ensures running && frameSkip == 1 && frameCount == 0
    {
      this.frameQueue := frameQueue;
      this.resultQueue := resultQueue;
      this.recognizer := recognizer;
      running := true;
      frameSkip := 1;
      frameCount := 0;
    }

    /** `detect_hand_gesture`: one `(name, score)` pair per detected hand,
        taken from that hand's top category, in detection order; the two
        lists it returns are equal. Landmark drawing is not modelled, so the
        annotated image is the frame itself. */
    method DetectHandGesture(frame: Frame)
      returns (annotatedImage: Frame, gesturesDetected: seq<Detection>, predictions: seq<Detection>)
      ensures annotatedImage == frame
      ensures |gesturesDetected| == |recognizer(frame).gestures|
      ensures forall i :: 0 <= i < |gesturesDetected| ==>
        gesturesDetected[i].0 == recognizer(frame).gestures[i][0].categoryName &&
        gesturesDetected[i].1 == recognizer(frame).gestures[i][0].score
      ensures predictions == gesturesDetected
    {
      var recognitionResult := recognizer(frame);
      annotatedImage := frame;
      gesturesDetected := [];
      predictions := [];
      if |recognitionResult.gestures| > 0 {
        for i := 0 to |recognitionResult.gestures|
          invariant |gesturesDetected| == i
          invariant forall j :: 0 <= j < i ==>
            gesturesDetected[j].0 == recognitionResult.gestures[j][0].categoryName &&
            gesturesDetected[j].1 == recognitionResult.gestures[j][0].score
          invariant predictions == gesturesDetected
        {
          var topGesture := recognitionResult.gestures[i][0];
          var gestureCategory := topGesture.categoryName;
          var certainty := topGesture.score;
          gesturesDetected := gesturesDetected + [(gestureCategory, certainty)];
          predictions := predictions + [(gestureCategory, certainty)];
        }
      }
    }

    /** One pass of the loop body of `run`: dequeue one frame (giving up
        when the queue is empty), process it when the counter is a multiple
        of `frameSkip`, and advance the counter only after a dequeue. */
    method Step()
      requires Valid() && running
      modifies this, frameQueue, resultQueue
      ensures Valid()
      ensures running == old(running) && frameSkip == old(frameSkip)
      ensures State() == StepSpec(old(State()), frameSkip, recognizer)
    {
      if frameCount % frameSkip == 0 {
        var got := frameQueue.Get();
        if got.None? {
          return;
        }
        var annotatedImage, gestureCategories, predictions := DetectHandGesture(got.value);
        assert gestureCategories == TopGestures(recognizer(got.value).gestures);
        var _ := resultQueue.PutNowait(DetectionResult(annotatedImage, gestureCategories, predictions));
      } else {
        var got := frameQueue.Get();
        if got.None? {
          return;
        }
      }
      frameCount := frameCount + 1;
    }

    /** `run`, cut off after at most `passes` passes: the loop is entered
        only while `running`, and nothing in it changes `running`. */
    method Run(passes: nat)
      requires Valid()
      modifies this, frameQueue, resultQueue
      ensures Valid()
      ensures running == old(running) && frameSkip == old(frameSkip)
      ensures State() == if old(running) then Steps(old(State()), frameSkip, recognizer, passes) else old(State())
    {
      var i := 0;
      while running && i < passes
        invariant 0 <= i <= passes
        invariant Valid()
        invariant running == old(running) && frameSkip == old(frameSkip)
        invariant !running ==> i == 0
        invariant State() == Steps(old(State()), frameSkip, recognizer, i)
      {
        Step();
        i := i + 1;
      }
    }

    /** `stop`: clears the flag; nothing sets it again. */
    method Stop()
      modifies this`running
      ensures !running
    {
      running := false;
    }
  }

  // ---------------------------------------------------------------------
  // Properties of the worker loop

  /** A pass over an empty frame queue (the `queue.Empty` path) changes
      nothing: no counter step, no result. */
  lemma {:induction false} TimeoutChangesNothing(w: WorkerState, frameSkip: nat, recognizer: Frame -> RecognitionResult, n: nat)
    requires frameSkip >= 1 && w.frameQueue == []
    ensures Steps(w, frameSkip, recognizer, n) == w
  {
    if n > 0 {
      TimeoutChangesNothing(w, frameSkip, recognizer, n - 1);
    }
  }

  /** A pass that finds a frame removes exactly that frame, advances the
      counter by one, and pushes at most one result. */
  lemma StepDequeuesOne(w: WorkerState, frameSkip: nat, recognizer: Frame -> RecognitionResult)
    requires frameSkip >= 1 && w.frameQueue != []
    ensures var w' := StepSpec(w, frameSkip, recognizer);
      w'.frameCount == w.frameCount + 1 &&
      w'.frameQueue == w.frameQueue[1..] &&
      (w'.resultQueue == w.resultQueue + [Detect(recognizer, w.frameQueue[0])] <==> w.frameCount % frameSkip == 0) &&
      (w'.resultQueue == w.resultQueue <==> w.frameCount % frameSkip != 0)
  {
    var w' := StepSpec(w, frameSkip, recognizer);
    if w.frameCount % frameSkip == 0 {
      assert |w'.resultQueue| == |w.resultQueue| + 1;
    }
  }

  /** The skip pattern depends only on the frames seen: splitting the stream
      anywhere (say, around timeouts) gives the same processed frames. */
  lemma {:induction false} ProcessedSplit(a: seq<Frame>, b: seq<Frame>, count: nat, frameSkip: nat)
    requires frameSkip >= 1
    ensures Processed(a + b, count, frameSkip) == Processed(a, count, frameSkip) + Processed(b, count + |a|, frameSkip)
  {
    if a == [] {
      assert a + b == b;
    } else {
      assert (a + b)[0] == a[0];
      assert (a + b)[1..] == a[1..] + b;
      ProcessedSplit(a[1..], b, count + 1, frameSkip);
    }
  }

  lemma ProcessedSnoc(a: seq<Frame>, f: Frame, count: nat, frameSkip: nat)
    requires frameSkip >= 1
    ensures Processed(a + [f], count, frameSkip) ==
      Processed(a, count, frameSkip) + (if (count + |a|) % frameSkip == 0 then [f] else [])
  {
    ProcessedSplit(a, [f], count, frameSkip);
    assert [f][1..] == [];
  }

  lemma DetectAllSnoc(recognizer: Frame -> RecognitionResult, a: seq<Frame>, f: Frame)
    ensures DetectAll(recognizer, a + [f]) == DetectAll(recognizer, a) + [Detect(recognizer, f)]
  {
  }

  /** The pass that dequeues the `n`-th frame of a drain. */
  lemma DrainStep(w: WorkerState, prev: WorkerState, frameSkip: nat, recognizer: Frame -> RecognitionResult, n: nat)
    requires frameSkip >= 1 && 0 < n <= |w.frameQueue|
    requires prev == WorkerState(
      w.frameCount + n - 1,
      w.frameQueue[n - 1..],
      w.resultQueue + DetectAll(recognizer, Processed(w.frameQueue[..n - 1], w.frameCount, frameSkip)))
    ensures StepSpec(prev, frameSkip, recognizer) == WorkerState(
      w.frameCount + n,
      w.frameQueue[n..],
      w.resultQueue + DetectAll(recognizer, Processed(w.frameQueue[..n], w.frameCount, frameSkip)))
  {
    var q := w.frameQueue;
    var f := q[n - 1];
    var done := Processed(q[..n - 1], w.frameCount, frameSkip);
    assert prev.frameQueue[0] == f && prev.frameQueue[1..] == q[n..];
    assert q[..n - 1] + [f] == q[..n];
    ProcessedSnoc(q[..n - 1], f, w.frameCount, frameSkip);
    if (w.frameCount + n - 1) % frameSkip == 0 {
      DetectAllSnoc(recognizer, done, f);
      assert w.resultQueue + DetectAll(recognizer, done) + [Detect(recognizer, f)]
        == w.resultQueue + DetectAll(recognizer, done + [f]);
    } else {
      assert done + [] == done;
    }
  }

  /** Draining `n` queued frames: the counter advances by `n`, the first `n`
      frames leave the queue in order, and the results of exactly the frames
      the skip policy selects are appended in the order they were dequeued. */
  lemma {:induction false} Drain(w: WorkerState, frameSkip: nat, recognizer: Frame -> RecognitionResult, n: nat)
    requires frameSkip >= 1 && n <= |w.frameQueue|
    ensures Steps(w, frameSkip, recognizer, n) == WorkerState(
      w.frameCount + n,
      w.frameQueue[n..],
      w.resultQueue + DetectAll(recognizer, Processed(w.frameQueue[..n], w.frameCount, frameSkip)))
  {
    if n == 0 {
      assert w.frameQueue[..0] == [] && w.frameQueue[0..] == w.frameQueue;
      assert w.resultQueue + [] == w.resultQueue;
    } else {
      Drain(w, frameSkip, recognizer, n - 1);
      DrainStep(w, Steps(w, frameSkip, recognizer, n - 1), frameSkip, recognizer, n);
    }
  }

  // --- arithmetic of the counter

  lemma MulAtLeast(d: int, k: int)
    requires d >= 1 && k > 0
    ensures d * k >= k
  {
  }

  lemma ModUnique(x: int, q: int, m: int, k: int)
    requires k > 0 && 0 <= m < k && x == q * k + m
    ensures x % k == m
  {
    var q', m' := x / k, x % k;
    assert q' * k + m' == x;
    var d := q' - q;
    assert d * k == q' * k - q * k;
    assert d * k == m - m';
    if d >= 1 {
      MulAtLeast(d, k);
    } else if d <= -1 {
      MulAtLeast(-d, k);
    }
    assert d == 0;
  }

  lemma ModSucc(c: nat, k: nat)
    requires k >= 1
    ensures (c + 1) % k == if c % k == k - 1 then 0 else c % k + 1
  {
    if c % k == k - 1 {
      ModUnique(c + 1, c / k + 1, 0, k);
    } else {
      ModUnique(c + 1, c / k, c % k + 1, k);
    }
  }

  /** No frame is selected while the counter stays strictly between two
      multiples of `frameSkip`. */
  lemma {:induction false} NoneSelected(frames: seq<Frame>, count: nat, frameSkip: nat)
    requires frameSkip >= 1
    requires 0 < count % frameSkip && count % frameSkip + |frames| <= frameSkip
    ensures Processed(frames, count, frameSkip) == []
  {
    if frames != [] {
      ModSucc(count, frameSkip);
      if count % frameSkip < frameSkip - 1 {
        NoneSelected(frames[1..], count + 1, frameSkip);
      } else {
        assert frames[1..] == [];
      }
    }
  }

  /** The offset, within a window of `frameSkip` frames starting at counter
      `count`, of the frame the skip policy selects. */
  lemma FirstSelected(count: nat, frameSkip: nat)
    requires frameSkip >= 1
    ensures var j := (frameSkip - count % frameSkip) % frameSkip;
      0 <= j < frameSkip && (count + j) % frameSkip == 0 &&
      (j > 0 ==> j == frameSkip - count % frameSkip)
  {
    var k, r := frameSkip, count % frameSkip;
    if r != 0 {
      ModUnique(k - r, 0, k - r, k);
      ModUnique(count + (k - r), count / k + 1, 0, k);
    } else {
      ModUnique(k, 1, 0, k);
    }
  }

  lemma ProcessedAround(frames: seq<Frame>, j: nat, count: nat, frameSkip: nat)
    requires frameSkip >= 1 && j < |frames|
    ensures Processed(frames, count, frameSkip) ==
      Processed(frames[..j], count, frameSkip) +
      Processed([frames[j]], count + j, frameSkip) +
      Processed(frames[j + 1..], count + j + 1, frameSkip)
  {
    assert frames == frames[..j] + [frames[j]] + frames[j + 1..];
    ProcessedSplit(frames[..j] + [frames[j]], frames[j + 1..], count, frameSkip);
    ProcessedSplit(frames[..j], [frames[j]], count, frameSkip);
  }

  /** Of any `frameSkip` consecutive dequeued frames exactly one is sent to
      the recognizer: the one at which the counter reaches a multiple of
      `frameSkip`. */
  lemma ExactlyOneOfK(frames: seq<Frame>, count: nat, frameSkip: nat)
    requires frameSkip >= 1 && |frames| == frameSkip
    ensures Processed(frames, count, frameSkip) == [frames[(frameSkip - count % frameSkip) % frameSkip]]
  {
    var k := frameSkip;
    var j := (k - count % k) % k;
    FirstSelected(count, k);
    ProcessedAround(frames, j, count, k);
    assert Processed([frames[j]], count + j, k) == [frames[j]] by {
      assert [frames[j]][1..] == [];
    }
    if j > 0 {
      NoneSelected(frames[..j], count, k);
    } else {
      assert frames[..j] == [];
    }
    if j + 1 < k {
      ModSucc(count + j, k);
      NoneSelected(frames[j + 1..], count + j + 1, k);
    } else {
      assert frames[j + 1..] == [];
    }
  }

  /** With `frameSkip = 1` (the default) every dequeued frame is processed. */
  lemma {:induction false} SkipOneProcessesAll(frames: seq<Frame>, count: nat)
    ensures Processed(frames, count, 1) == frames
  {
    if frames != [] {
      SkipOneProcessesAll(frames[1..], count + 1);
    }
  }

  /** The worker with `frameSkip = k` and at least `k` frames queued: after
      `k` passes exactly one new result is on the result queue. */
  lemma OneResultPerKFrames(w: WorkerState, frameSkip: nat, recognizer: Frame -> RecognitionResult)
    requires frameSkip >= 1 && |w.frameQueue| >= frameSkip
    ensures |Steps(w, frameSkip, recognizer, frameSkip).resultQueue| == |w.resultQueue| + 1
  {
    Drain(w, frameSkip, recognizer, frameSkip);
    ExactlyOneOfK(w.frameQueue[..frameSkip], w.frameCount, frameSkip);
    var f := w.frameQueue[..frameSkip][(frameSkip - w.frameCount % frameSkip) % frameSkip];
    assert DetectAll(recognizer, [f]) == [Detect(recognizer, f)] by {
      assert [f][..0] == [];
    }
  }

  /** The worker with the default `frameSkip = 1`: draining `n` frames
      appends one result per frame, in dequeue order. */
  lemma DefaultSkipResultsInOrder(w: WorkerState, recognizer: Frame -> RecognitionResult, n: nat)
    requires n <= |w.frameQueue|
    ensures Steps(w, 1, recognizer, n).resultQueue == w.resultQueue + DetectAll(recognizer, w.frameQueue[..n])
  {
    Drain(w, 1, recognizer, n);
    SkipOneProcessesAll(w.frameQueue[..n], w.frameCount);
  }
}
