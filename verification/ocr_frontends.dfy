/**
 * What the two OCR classes hand to the recognizer, and the image size they
 * remember. Images are opaque handles with a pixel size; a `UIImage` may
 * or may not be backed by a `CGImage`.
 */
module OcrImages {
  import opened Wrappers

  /** `CGImagePropertyOrientation`. */
  datatype Orientation = Up | UpMirrored | Down | DownMirrored | LeftMirrored | Right | RightMirrored | Left

  datatype Size = Size(width: real, height: real)

  /** `CGSize.zero`, also written `CGSize()`. */
  const ZeroSize := Size(0.0, 0.0)

  datatype CgImage = CgImage(handle: nat, width: nat, height: nat)

  datatype UiImage = UiImage(cgImage: Option<CgImage>, size: Size)

  /** Both classes always ask for accurate recognition. */
  datatype RecognitionLevel = Fast | Accurate

  /** One call into the recognizer: the image, its orientation and the request's settings. */
  datatype VisionCall = VisionCall(image: CgImage, orientation: Orientation, level: RecognitionLevel, languageCorrection: bool)

  function PixelSize(image: CgImage): Size {
    Size(image.width as real, image.height as real)
  }

  /** `if imageSize == .zero { imageSize = size }`: the first nonzero size is kept for good. */
  function RememberSize(imageSize: Size, size: Size): (r: Size)
    ensures imageSize != ZeroSize ==> r == imageSize
    ensures imageSize == ZeroSize ==> r == size
  {
    if imageSize == ZeroSize then size else imageSize
  }
}

/**
 * `GFOcrHelper`: requests carry their own orientation; a `UIImage` is
 * scanned upright, and one without a `CGImage` fails at once.
 */
module GfOcrHelper {
  import opened Wrappers
  import opened OcrImages
  import opened RecognitionQueue

  datatype Payload = Payload(image: CgImage, orientation: Orientation)

  datatype Helper = Helper(useFastRecognition: bool, queue: State<Payload>, imageSize: Size)

  /** The result of one public call: the helper afterwards, the recognizer call it made, the callback it fired. */
  datatype Outcome = Outcome(helper: Helper, recognizer: Option<VisionCall>, fired: Option<Fired>)

  predicate Valid(h: Helper) {
    Consistent(h.queue)
  }

  /** `init(fastRecognition:)`. */
  function Init(fastRecognition: bool): (h: Helper)
    ensures Valid(h) && h.queue.pending == [] && h.imageSize == ZeroSize
  {
    Helper(fastRecognition, Initial(), ZeroSize)
  }

  /** `processOCRRequest`: the request's image and orientation, accurate, without language correction. */
  function Process(request: Request<Payload>): (call: VisionCall)
    ensures call.image == request.payload.image && call.orientation == request.payload.orientation
    ensures call.level == Accurate && !call.languageCorrection
  {
    VisionCall(request.payload.image, request.payload.orientation, Accurate, false)
  }

  function Enqueue(h: Helper, request: Request<Payload>, imageSize: Size): (r: Outcome)
    requires Valid(h)
    ensures Valid(r.helper)
  {
    var stepped := Step(h.queue, Add(request));
    Outcome(h.(queue := stepped.state, imageSize := imageSize),
      match stepped.started case Some(started) => Some(Process(started)) case None => None,
      None)
  }

  /**
   * Queue the request and, when that hands it to the recognizer, finish it
   * before returning: `perform` is synchronous, and both its completion
   * handler and its `catch` end in `currentRequestProcessed`. `recognition`
   * is what `perform` produces for this request; a request that only
   * waits does not use it.
   */
  function Submit(h: Helper, request: Request<Payload>, imageSize: Size, recognition: Recognition): (r: Outcome)
    requires Valid(h)
    ensures Valid(r.helper)
  {
    var queued := Enqueue(h, request, imageSize);
    if queued.recognizer.Some? then
      var finished := FinishRecognition(queued.helper, recognition);
      Outcome(finished.helper, queued.recognizer, finished.fired)
    else queued
  }

  /**
   * `getTextFromImage(_: CGImage, orientation:callback:)`: remember the
   * pixel size if none is known, then queue the request. On an empty queue
   * the recognizer runs on it at once and its callback fires before the
   * call returns, leaving the queue empty again; otherwise the request
   * waits behind the others.
   */
  function GetTextFromCgImage(h: Helper, image: CgImage, orientation: Orientation, id: nat, recognition: Recognition): (r: Outcome)
    requires Valid(h)
    ensures Valid(r.helper)
    ensures r.helper.imageSize == RememberSize(h.imageSize, PixelSize(image))
    ensures r.recognizer.Some? <==> |h.queue.pending| == 0
    ensures r.recognizer.Some? ==> r.recognizer.value == VisionCall(image, orientation, Accurate, false)
    ensures |h.queue.pending| == 0 ==>
      r.helper.queue == Initial() && r.fired == Some(Fired(id, ReplyOf(Choose(recognition))))
    ensures |h.queue.pending| > 0 ==>
      r.helper.queue == State(h.queue.pending + [Request(id, Payload(image, orientation))], h.queue.inFlight) && r.fired.None?
  {
    Submit(h, Request(id, Payload(image, orientation)), RememberSize(h.imageSize, PixelSize(image)), recognition)
  }

  /**
   * `getTextFromImage(_: UIImage, callback:)`: without a backing `CGImage`
   * the callback fails at once and nothing else changes; otherwise as
   * above, with the image's point size and the `.up` orientation.
   */
  function GetTextFromUiImage(h: Helper, image: UiImage, id: nat, recognition: Recognition): (r: Outcome)
    requires Valid(h)
    ensures Valid(r.helper)
    ensures image.cgImage.None? ==> r == Outcome(h, None, Some(Fired(id, Failure)))
    ensures image.cgImage.Some? ==>
      && r.helper.imageSize == RememberSize(h.imageSize, image.size)
      && (r.recognizer.Some? <==> |h.queue.pending| == 0)
      && (r.recognizer.Some? ==> r.recognizer.value == VisionCall(image.cgImage.value, Up, Accurate, false))
      && (|h.queue.pending| == 0 ==>
            r.helper.queue == Initial() && r.fired == Some(Fired(id, ReplyOf(Choose(recognition)))))
      && (|h.queue.pending| > 0 ==>
            r.helper.queue == State(h.queue.pending + [Request(id, Payload(image.cgImage.value, Up))], h.queue.inFlight) && r.fired.None?)
  {
    match image.cgImage
    case None => Outcome(h, None, Some(Fired(id, Failure)))
    case Some(cgImage) => Submit(h, Request(id, Payload(cgImage, Up)), RememberSize(h.imageSize, image.size), recognition)
  }

  /** The recognizer finished (or `perform` threw): `currentRequestProcessed` with the chosen string. */
  function FinishRecognition(h: Helper, recognition: Recognition): (r: Outcome)
    requires Valid(h)
    ensures Valid(r.helper) && r.recognizer.None?
    ensures r.helper.imageSize == h.imageSize && r.helper.useFastRecognition == h.useFastRecognition
    ensures r.helper.queue == Step(h.queue, Complete(recognition)).state
    ensures h.queue.inFlight ==> r.fired == Some(Fired(h.queue.pending[0].id, ReplyOf(Choose(recognition))))
  {
    var stepped := Step(h.queue, Complete(recognition));
    Outcome(h.(queue := stepped.state), None, stepped.fired)
  }

  /**
   * The fast-recognition flag is stored but never read: two helpers that
   * differ only in it make the same recognizer calls and fire the same
   * callbacks.
   */
  lemma FastRecognitionIgnored(h: Helper, image: CgImage, orientation: Orientation, id: nat, recognition: Recognition)
    requires Valid(h)
    ensures var other := h.(useFastRecognition := !h.useFastRecognition);
      && GetTextFromCgImage(other, image, orientation, id, recognition).recognizer == GetTextFromCgImage(h, image, orientation, id, recognition).recognizer
      && GetTextFromCgImage(other, image, orientation, id, recognition).fired == GetTextFromCgImage(h, image, orientation, id, recognition).fired
      && GetTextFromCgImage(other, image, orientation, id, recognition).helper.queue == GetTextFromCgImage(h, image, orientation, id, recognition).helper.queue
  {
  }

  /** Once a size is known, no later image changes it. */
  lemma ImageSizeKept(h: Helper, cgImage: CgImage, uiImage: UiImage, orientation: Orientation, id: nat, recognition: Recognition)
    requires Valid(h) && h.imageSize != ZeroSize
    ensures GetTextFromCgImage(h, cgImage, orientation, id, recognition).helper.imageSize == h.imageSize
    ensures GetTextFromUiImage(h, uiImage, id, recognition).helper.imageSize == h.imageSize
  {
  }

  datatype Calls = Calls(helper: Helper, fired: seq<Fired>)

  /**
   * One `getTextFromImage` per image, each made after the previous one
   * returned; the calls' callbacks have ids `firstId`, `firstId + 1`, ...
   */
  function CallEach(h: Helper, images: seq<CgImage>, orientation: Orientation, recognitions: seq<Recognition>, firstId: nat): Calls
    requires Valid(h) && |images| == |recognitions|
    decreases |images|
  {
    if |images| == 0 then Calls(h, [])
    else
      var first := GetTextFromCgImage(h, images[0], orientation, firstId, recognitions[0]);
      var rest := CallEach(first.helper, images[1..], orientation, recognitions[1..], firstId + 1);
      Calls(rest.helper, (match first.fired case Some(f) => [f] case None => []) + rest.fired)
  }

  /**
   * Calls made one after another never leave a request waiting: starting
   * from an empty queue, each call runs the recognizer on its own image,
   * answers its own callback and leaves the queue empty for the next.
   */
  lemma {:induction false} SequentialCallsAnswered(h: Helper, images: seq<CgImage>, orientation: Orientation, recognitions: seq<Recognition>, firstId: nat)
    requires Valid(h) && |h.queue.pending| == 0 && |images| == |recognitions|
    ensures var r := CallEach(h, images, orientation, recognitions, firstId);
      && r.helper.queue == Initial()
      && |r.fired| == |images|
      && forall i :: 0 <= i < |images| ==> r.fired[i] == Fired(firstId + i, ReplyOf(Choose(recognitions[i])))
    decreases |images|
  {
    if |images| > 0 {
      var first := GetTextFromCgImage(h, images[0], orientation, firstId, recognitions[0]);
      SequentialCallsAnswered(first.helper, images[1..], orientation, recognitions[1..], firstId + 1);
      var rest := CallEach(first.helper, images[1..], orientation, recognitions[1..], firstId + 1);
      var r := CallEach(h, images, orientation, recognitions, firstId);
      assert r.fired == [Fired(firstId, ReplyOf(Choose(recognitions[0])))] + rest.fired;
      forall i | 0 <= i < |images|
        ensures r.fired[i] == Fired(firstId + i, ReplyOf(Choose(recognitions[i])))
      {
        if i > 0 {
          assert r.fired[i] == rest.fired[i - 1];
          assert recognitions[1..][i - 1] == recognitions[i];
        }
      }
    }
  }
}

/** `OCREngine`: the same queue, with every image scanned in the `.right` orientation. */
module OcrEngine {
  import opened Wrappers
  import opened OcrImages
  import opened RecognitionQueue

  datatype Engine = Engine(queue: State<CgImage>, imageSize: Size)

  datatype Outcome = Outcome(engine: Engine, recognizer: Option<VisionCall>, fired: Option<Fired>)

  predicate Valid(e: Engine) {
    Consistent(e.queue)
  }

  /** `processOCRRequest`: the request's image, always oriented `.right`, accurate, without language correction. */
  function Process(request: Request<CgImage>): (call: VisionCall)
    ensures call.image == request.payload && call.orientation == Right
    ensures call.level == Accurate && !call.languageCorrection
  {
    VisionCall(request.payload, Right, Accurate, false)
  }

  /**
   * `getTextFromImage`: remember the pixel size if none is known, then
   * queue the request. On an empty queue the recognizer runs on it at once
   * (`perform` is synchronous, and its handler and its `catch` both end in
   * `currentRequestProcessed`), so its callback fires before the call
   * returns and the queue is empty again; otherwise the request waits.
   * `recognition` is what `perform` produces for this request.
   */
  function GetTextFromImage(e: Engine, image: CgImage, id: nat, recognition: Recognition): (r: Outcome)
    requires Valid(e)
    ensures Valid(r.engine)
    ensures r.engine.imageSize == RememberSize(e.imageSize, PixelSize(image))
    ensures r.recognizer.Some? <==> |e.queue.pending| == 0
    ensures r.recognizer.Some? ==> r.recognizer.value == VisionCall(image, Right, Accurate, false)
    ensures |e.queue.pending| == 0 ==>
      r.engine.queue == Initial() && r.fired == Some(Fired(id, ReplyOf(Choose(recognition))))
    ensures |e.queue.pending| > 0 ==>
      r.engine.queue == State(e.queue.pending + [Request(id, image)], e.queue.inFlight) && r.fired.None?
  {
    var stepped := Step(e.queue, Add(Request(id, image)));
    var queued := Engine(stepped.state, RememberSize(e.imageSize, PixelSize(image)));
    match stepped.started
    case Some(started) =>
      var finished := FinishRecognition(queued, recognition);
      Outcome(finished.engine, Some(Process(started)), finished.fired)
    case None => Outcome(queued, None, None)
  }

  /** The recognizer finished (or `perform` threw): `currentRequestProcessed` with the chosen string. */
  function FinishRecognition(e: Engine, recognition: Recognition): (r: Outcome)
    requires Valid(e)
    ensures Valid(r.engine) && r.recognizer.None? && r.engine.imageSize == e.imageSize
    ensures r.engine.queue == Step(e.queue, Complete(recognition)).state
    ensures e.queue.inFlight ==> r.fired == Some(Fired(e.queue.pending[0].id, ReplyOf(Choose(recognition))))
  {
    var stepped := Step(e.queue, Complete(recognition));
    Outcome(e.(queue := stepped.state), None, stepped.fired)
  }

  /**
   * `if imageSize == .zero`: an engine without a size takes the first
   * image's pixel size, even a zero one, and once the size is nonzero no
   * later image replaces it.
   */
  lemma ImageSizeSetOnce(e: Engine, first: CgImage, second: CgImage, firstId: nat, secondId: nat, r1: Recognition, r2: Recognition)
    requires Valid(e)
    ensures var e1 := GetTextFromImage(e, first, firstId, r1).engine;
      && (e.imageSize == ZeroSize ==> e1.imageSize == PixelSize(first))
      && (e.imageSize != ZeroSize ==> e1.imageSize == e.imageSize)
      && (e1.imageSize != ZeroSize ==> GetTextFromImage(e1, second, secondId, r2).engine.imageSize == e1.imageSize)
      && (e1.imageSize == ZeroSize ==> GetTextFromImage(e1, second, secondId, r2).engine.imageSize == PixelSize(second))
  {
  }
}
