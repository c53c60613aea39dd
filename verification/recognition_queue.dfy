/**
 * The OCR request queue shared by `GFOcrHelper` and `OCREngine`, and the
 * choice of the recognised string.
 *
 * Requests wait in a FIFO list. Adding a request appends it, and only when
 * the list had been empty does the new request go to the recognizer. When
 * the recognizer finishes, the head of the list is removed and its callback
 * fires once: success with the chosen string, failure when there is none.
 * Nothing hands the next waiting request to the recognizer, so once two
 * requests have been queued at the same time the later ones are never
 * processed. The recognizer runs inside the call that started it, so a
 * second request can only queue up behind a running one when it comes
 * from another thread; a trace of separate additions and completions
 * covers those interleavings.
 *
 * The queue is generic in the request's payload `P` (image, orientation);
 * callbacks are identified by the request's `id`.
 */
module RecognitionQueue {
  import opened Wrappers

  // ---------------------------------------------------------------------
  // What the recognizer reports, and the choice of the string.

  /** A bounding box in normalised image coordinates: origin and size. */
  datatype Box = Box(x: real, y: real, width: real, height: real)

  /** One recognised text region: its best candidate string, if any, and where it is. */
  datatype Observation = Observation(topCandidate: Option<string>, boundingBox: Box)

  /**
   * How one recognition ended: `perform` threw, the request's results were
   * not text observations, or the list of text observations.
   */
  datatype Recognition = Threw | NoTextResults | Observed(observations: seq<Observation>)

  /** A string together with its box centre's squared distance from the image centre. */
  datatype Candidate = Candidate(text: string, distance: real)

  /**
   * Squared distance from the box centre (origin plus half the size) to
   * the image centre (0.5, 0.5). The app compares the square root of this;
   * the square root is increasing on nonnegative reals, so the order, and
   * with it the choice, is the same.
   */
  function CentreDistance(box: Box): (d: real)
    ensures d >= 0.0
  {
    var dx := box.x + box.width / 2.0 - 0.5;
    var dy := box.y + box.height / 2.0 - 0.5;
    dx * dx + dy * dy
  }

  /** The observation's candidate, or nothing when it has no top candidate. */
  function CandidateOf(observation: Observation): Option<Candidate> {
    match observation.topCandidate
    case Some(text) => Some(Candidate(text, CentreDistance(observation.boundingBox)))
    case None => None
  }

  /** `compactMap`: the candidates of the observations that have one, in order. */
  function Candidates(observations: seq<Observation>): (r: seq<Candidate>)
    ensures |r| <= |observations|
  {
    if |observations| == 0 then []
    else
      var rest := Candidates(observations[1..]);
      match CandidateOf(observations[0])
      case Some(c) => [c] + rest
      case None => rest
  }

  /** The candidates are exactly the observations that have a top candidate. */
  lemma {:induction false} CandidatesExact(observations: seq<Observation>)
    ensures forall j :: 0 <= j < |observations| && observations[j].topCandidate.Some? ==>
      CandidateOf(observations[j]).value in Candidates(observations)
    ensures forall c :: c in Candidates(observations) ==>
      exists j :: 0 <= j < |observations| && CandidateOf(observations[j]) == Some(c)
    ensures |Candidates(observations)| == 0 <==> forall j :: 0 <= j < |observations| ==> observations[j].topCandidate.None?
  {
    if |observations| > 0 {
      var rest := observations[1..];
      CandidatesExact(rest);
      forall j | 0 <= j < |observations| && observations[j].topCandidate.Some?
        ensures CandidateOf(observations[j]).value in Candidates(observations)
      {
        if j > 0 {
          assert observations[j] == rest[j - 1];
        }
      }
      forall c | c in Candidates(observations)
        ensures exists j :: 0 <= j < |observations| && CandidateOf(observations[j]) == Some(c)
      {
        if c !in Candidates(rest) {
          assert CandidateOf(observations[0]) == Some(c);
        } else {
          var k :| 0 <= k < |rest| && CandidateOf(rest[k]) == Some(c);
          assert observations[k + 1] == rest[k];
        }
      }
      if observations[0].topCandidate.None? && |Candidates(rest)| == 0 {
        forall j | 0 <= j < |observations|
          ensures observations[j].topCandidate.None?
        {
          if j > 0 {
            assert observations[j] == rest[j - 1];
          }
        }
      }
    }
  }

  /**
   * Position of the first candidate at the least distance: what comes
   * first after sorting by increasing distance, ties kept in their
   * original order.
   */
  function Nearest(candidates: seq<Candidate>): (i: nat)
    requires |candidates| > 0
    ensures i < |candidates|
    ensures forall j :: 0 <= j < |candidates| ==> candidates[i].distance <= candidates[j].distance
    ensures forall j :: 0 <= j < i ==> candidates[j].distance > candidates[i].distance
  {
    if |candidates| == 1 then 0
    else
      var k := Nearest(candidates[1..]) + 1;
      if candidates[0].distance <= candidates[k].distance then 0 else k
  }

  /** `recognizedStrings.first?.0`, or nothing when the recognition failed or found no candidate. */
  function Choose(recognition: Recognition): (chosen: Option<string>)
    ensures recognition.Threw? || recognition.NoTextResults? ==> chosen.None?
    ensures recognition.Observed? ==> (chosen.None? <==> |Candidates(recognition.observations)| == 0)
  {
    match recognition
    case Observed(observations) =>
      var candidates := Candidates(observations);
      if |candidates| == 0 then None else Some(candidates[Nearest(candidates)].text)
    case _ => None
  }

  /**
   * Observation `j` has a top candidate at the least box-centre distance,
   * and every observation before it with a candidate is strictly farther away.
   */
  predicate FirstNearest(observations: seq<Observation>, j: nat) {
    && j < |observations| && observations[j].topCandidate.Some?
    && (forall k :: 0 <= k < |observations| && observations[k].topCandidate.Some? ==>
          CentreDistance(observations[j].boundingBox) <= CentreDistance(observations[k].boundingBox))
    && (forall k :: 0 <= k < j && observations[k].topCandidate.Some? ==>
          CentreDistance(observations[k].boundingBox) > CentreDistance(observations[j].boundingBox))
  }

  /** The first nearest observation after the head stays first nearest when the head is farther or has no candidate. */
  lemma FirstNearestAfterHead(observations: seq<Observation>, i: nat)
    requires |observations| > 0 && FirstNearest(observations[1..], i)
    requires observations[0].topCandidate.Some? ==>
      CentreDistance(observations[0].boundingBox) > CentreDistance(observations[i + 1].boundingBox)
    ensures FirstNearest(observations, i + 1)
  {
    var rest := observations[1..];
    assert observations[i + 1] == rest[i];
    forall k | 1 <= k < |observations|
      ensures observations[k] == rest[k - 1]
    {
    }
  }

  /** The head is first nearest when it has a candidate no farther than any later one. */
  lemma FirstNearestAtHead(observations: seq<Observation>)
    requires |observations| > 0 && observations[0].topCandidate.Some?
    requires forall k :: 1 <= k < |observations| && observations[k].topCandidate.Some? ==>
      CentreDistance(observations[0].boundingBox) <= CentreDistance(observations[k].boundingBox)
    ensures FirstNearest(observations, 0)
  {
  }

  /** The chosen candidate is the one of the observation at position `j`. */
  predicate ChosenFrom(observations: seq<Observation>, j: nat)
    requires |Candidates(observations)| > 0 && j < |observations|
  {
    CandidateOf(observations[j]) == Some(Candidates(observations)[Nearest(Candidates(observations))])
  }

  /** A head without a candidate shifts the chosen observation by one. */
  lemma ChosenPastEmptyHead(observations: seq<Observation>, i: nat)
    requires |observations| > 0 && CandidateOf(observations[0]).None?
    requires |Candidates(observations[1..])| > 0 && FirstNearest(observations[1..], i) && ChosenFrom(observations[1..], i)
    ensures |Candidates(observations)| > 0 && FirstNearest(observations, i + 1) && ChosenFrom(observations, i + 1)
  {
    assert Candidates(observations) == Candidates(observations[1..]);
    assert observations[i + 1] == observations[1..][i];
    FirstNearestAfterHead(observations, i);
  }

  /** The head's candidate is chosen when no later observation has one. */
  lemma ChosenOnlyHead(observations: seq<Observation>)
    requires |observations| > 0 && CandidateOf(observations[0]).Some? && |Candidates(observations[1..])| == 0
    ensures |Candidates(observations)| > 0 && FirstNearest(observations, 0) && ChosenFrom(observations, 0)
  {
    var rest := observations[1..];
    CandidatesExact(rest);
    assert forall k :: 1 <= k < |observations| ==> observations[k] == rest[k - 1];
    FirstNearestAtHead(observations);
    assert Candidates(observations) == [CandidateOf(observations[0]).value];
  }

  /** Between the head's candidate and the one chosen after it, the nearer wins and the head wins a tie. */
  lemma ChosenAgainstHead(observations: seq<Observation>, i: nat) returns (j: nat)
    requires |observations| > 0 && CandidateOf(observations[0]).Some?
    requires |Candidates(observations[1..])| > 0 && FirstNearest(observations[1..], i) && ChosenFrom(observations[1..], i)
    ensures |Candidates(observations)| > 0 && FirstNearest(observations, j) && ChosenFrom(observations, j)
  {
    var rest := observations[1..];
    var c := CandidateOf(observations[0]).value;
    var candidates := Candidates(observations);
    var restCandidates := Candidates(rest);
    assert candidates == [c] + restCandidates;
    assert candidates[1..] == restCandidates;
    assert observations[i + 1] == rest[i];
    var n := Nearest(restCandidates);
    if c.distance <= restCandidates[n].distance {
      assert forall k :: 1 <= k < |observations| ==> observations[k] == rest[k - 1];
      FirstNearestAtHead(observations);
      assert Nearest(candidates) == 0;
      j := 0;
    } else {
      FirstNearestAfterHead(observations, i);
      assert Nearest(candidates) == n + 1;
      j := i + 1;
    }
  }

  /**
   * The observation the chosen string comes from: it has a top candidate at
   * the least distance, and every observation before it with a candidate is
   * strictly farther away.
   */
  lemma {:induction false} ChosenObservation(observations: seq<Observation>) returns (j: nat)
    requires |Candidates(observations)| > 0
    ensures FirstNearest(observations, j)
    ensures Candidates(observations)[Nearest(Candidates(observations))] == CandidateOf(observations[j]).value
  {
    var rest := observations[1..];
    if CandidateOf(observations[0]).None? {
      assert Candidates(observations) == Candidates(rest);
      var i := ChosenObservation(rest);
      ChosenPastEmptyHead(observations, i);
      j := i + 1;
    } else if |Candidates(rest)| == 0 {
      ChosenOnlyHead(observations);
      j := 0;
    } else {
      var i := ChosenObservation(rest);
      j := ChosenAgainstHead(observations, i);
    }
  }

  /**
   * When some observation has a top candidate, the chosen string is the
   * top candidate of an observation whose box centre is nearest the image
   * centre among all observations with a candidate, the first such in
   * observation order; otherwise nothing is chosen.
   */
  lemma ChooseNearest(observations: seq<Observation>)
    ensures (exists j :: 0 <= j < |observations| && observations[j].topCandidate.Some?) <==> Choose(Observed(observations)).Some?
    ensures Choose(Observed(observations)).Some? ==>
      exists j :: 0 <= j < |observations| && observations[j].topCandidate == Choose(Observed(observations))
        && (forall k :: 0 <= k < |observations| && observations[k].topCandidate.Some? ==>
             CentreDistance(observations[j].boundingBox) <= CentreDistance(observations[k].boundingBox))
        && (forall k :: 0 <= k < j && observations[k].topCandidate.Some? ==>
             CentreDistance(observations[k].boundingBox) > CentreDistance(observations[j].boundingBox))
  {
    CandidatesExact(observations);
    if |Candidates(observations)| > 0 {
      var j := ChosenObservation(observations);
      assert observations[j].topCandidate == Choose(Observed(observations));
    }
  }

  // ---------------------------------------------------------------------
  // The queue.

  /** A queued request: the payload for the recognizer and the identity of its callback. */
  datatype Request<P> = Request(id: nat, payload: P)

  /** What a callback receives: `.success(string)` or `.failure(error)`. */
  datatype Reply = Success(text: string) | Failure

  /** One callback invocation. */
  datatype Fired = Fired(id: nat, reply: Reply)

  function ReplyOf(chosen: Option<string>): (r: Reply)
    ensures r.Success? <==> chosen.Some?
    ensures chosen.Some? ==> r.text == chosen.value
  {
    match chosen
    case Some(text) => Success(text)
    case None => Failure
  }

  datatype Added<P> = Added(pending: seq<Request<P>>, started: Option<Request<P>>)

  /** `addRequest`: append; hand the request to the recognizer only when it is now the only one. */
  function AddRequest<P>(pending: seq<Request<P>>, request: Request<P>): (r: Added<P>)
    ensures r.pending == pending + [request]
    ensures r.started.Some? <==> |pending| == 0
    ensures r.started.Some? ==> r.started.value == request == r.pending[0]
  {
    var appended := pending + [request];
    Added(appended, if |appended| == 1 then Some(request) else None)
  }

  datatype Processed<P> = Processed(pending: seq<Request<P>>, fired: Option<Fired>)

  /**
   * `currentRequestProcessed`: on an empty list nothing happens; otherwise
   * the head is removed and its callback gets the chosen string, or a
   * failure when there is none.
   */
  function CurrentRequestProcessed<P>(pending: seq<Request<P>>, chosen: Option<string>): (r: Processed<P>)
    ensures |pending| == 0 ==> r.pending == pending && r.fired.None?
    ensures |pending| > 0 ==> r.pending == pending[1..] && r.fired == Some(Fired(pending[0].id, ReplyOf(chosen)))
  {
    if |pending| == 0 then Processed(pending, None)
    else Processed(pending[1..], Some(Fired(pending[0].id, ReplyOf(chosen))))
  }

  // ---------------------------------------------------------------------
  // The queue as a state machine over a trace of events.

  /** An input: a new request, or the recognizer finishing the request it was given. */
  datatype Event<P> = Add(request: Request<P>) | Complete(recognition: Recognition)

  /**
   * The waiting requests and whether the recognizer is working on one
   * (which is then the head). `inFlight` is not a field of the classes: it
   * records that a completion can only come for a request that was handed
   * to the recognizer.
   */
  datatype State<P> = State(pending: seq<Request<P>>, inFlight: bool)

  function Initial<P>(): State<P> {
    State([], false)
  }

  /** In flight means the head is the request being recognised. */
  predicate Consistent<P>(s: State<P>) {
    s.inFlight ==> |s.pending| > 0
  }

  /** Requests wait but none is being recognised: nothing will ever move them. */
  predicate Stalled<P>(s: State<P>) {
    !s.inFlight && |s.pending| > 0
  }

  datatype Stepped<P> = Stepped(state: State<P>, started: Option<Request<P>>, fired: Option<Fired>)

  /**
   * One event. A completion with nothing in flight cannot come from the
   * recognizer and changes nothing.
   */
  function Step<P>(s: State<P>, e: Event<P>): (r: Stepped<P>)
    requires Consistent(s)
    ensures Consistent(r.state)
    ensures e.Add? ==> (
      && r.fired.None? && r.state.pending == s.pending + [e.request]
      && (r.started.Some? <==> |s.pending| == 0) && (r.started.Some? ==> r.started.value == e.request))
    ensures e.Complete? ==> r.started.None? && !r.state.inFlight
  {
    match e
    case Add(request) =>
      var added := AddRequest(s.pending, request);
      Stepped(State(added.pending, s.inFlight || added.started.Some?), added.started, None)
    case Complete(recognition) =>
      if s.inFlight then
        var processed := CurrentRequestProcessed(s.pending, Choose(recognition));
        Stepped(State(processed.pending, false), None, processed.fired)
      else Stepped(s, None, None)
  }

  datatype Ran<P> = Ran(state: State<P>, started: seq<Request<P>>, fired: seq<Fired>)

  /** A whole trace: the final state, the requests handed to the recognizer, and the callbacks, in order. */
  function Run<P>(s: State<P>, events: seq<Event<P>>): (r: Ran<P>)
    requires Consistent(s)
    ensures Consistent(r.state)
    decreases |events|
  {
    if |events| == 0 then Ran(s, [], [])
    else
      var first := Step(s, events[0]);
      var rest := Run(first.state, events[1..]);
      Ran(rest.state, OptionToSeq(first.started) + rest.started, OptionToSeq(first.fired) + rest.fired)
  }

  function OptionToSeq<T>(o: Option<T>): (s: seq<T>)
    ensures |s| <= 1 && (o.Some? <==> |s| == 1) && (o.Some? ==> s[0] == o.value)
  {
    match o
    case Some(v) => [v]
    case None => []
  }

  /** The requests a trace submits, in order. */
  function Submitted<P>(events: seq<Event<P>>): (r: seq<Request<P>>)
    ensures |r| <= |events|
  {
    if |events| == 0 then []
    else (if events[0].Add? then [events[0].request] else []) + Submitted(events[1..])
  }

  function Ids<P>(requests: seq<Request<P>>): (r: seq<nat>)
    ensures |r| == |requests| && forall i :: 0 <= i < |r| ==> r[i] == requests[i].id
  {
    seq(|requests|, i requires 0 <= i < |requests| => requests[i].id)
  }

  function FiredIds(fired: seq<Fired>): (r: seq<nat>)
    ensures |r| == |fired| && forall i :: 0 <= i < |r| ==> r[i] == fired[i].id
  {
    seq(|fired|, i requires 0 <= i < |fired| => fired[i].id)
  }

  lemma IdsConcat<P>(a: seq<Request<P>>, b: seq<Request<P>>)
    ensures Ids(a + b) == Ids(a) + Ids(b)
  {
  }

  lemma FiredIdsConcat(a: seq<Fired>, b: seq<Fired>)
    ensures FiredIds(a + b) == FiredIds(a) + FiredIds(b)
  {
  }

  /** The request an event submits, if any. */
  function SubmittedBy<P>(e: Event<P>): seq<Request<P>> {
    if e.Add? then [e.request] else []
  }

  /** One step keeps "fired, then waiting" equal to "waiting before, then submitted". */
  lemma StepFifo<P>(s: State<P>, e: Event<P>)
    requires Consistent(s)
    ensures var st := Step(s, e);
      FiredIds(OptionToSeq(st.fired)) + Ids(st.state.pending) == Ids(s.pending) + Ids(SubmittedBy(e))
  {
    var st := Step(s, e);
    match e
    case Add(request) =>
      assert st.fired.None? && st.state.pending == s.pending + [request];
      assert OptionToSeq(st.fired) == [] && SubmittedBy(e) == [request];
      IdsConcat(s.pending, [request]);
    case Complete(recognition) =>
      if s.inFlight {
        var head := s.pending[0];
        assert st.state.pending == s.pending[1..];
        assert OptionToSeq(st.fired) == [Fired(head.id, ReplyOf(Choose(recognition)))];
        assert FiredIds(OptionToSeq(st.fired)) == Ids([head]);
        assert s.pending == [head] + s.pending[1..];
        IdsConcat([head], s.pending[1..]);
        assert SubmittedBy(e) == [];
      } else {
        assert st.state == s && st.fired.None? && SubmittedBy(e) == [];
      }
  }

  /**
   * FIFO and nothing lost: the callbacks fired, followed by the requests
   * still waiting, are the requests that were waiting at the start
   * followed by those the trace submits, in the same order.
   */
  lemma {:induction false} RunFifo<P>(s: State<P>, events: seq<Event<P>>)
    requires Consistent(s)
    ensures var r := Run(s, events);
      FiredIds(r.fired) + Ids(r.state.pending) == Ids(s.pending) + Ids(Submitted(events))
    decreases |events|
  {
    if |events| > 0 {
      var first := Step(s, events[0]);
      var rest := Run(first.state, events[1..]);
      var head := OptionToSeq(first.fired);
      RunFifo(first.state, events[1..]);
      StepFifo(s, events[0]);
      FiredIdsConcat(head, rest.fired);
      assert Submitted(events) == SubmittedBy(events[0]) + Submitted(events[1..]);
      IdsConcat(SubmittedBy(events[0]), Submitted(events[1..]));
      var r := Run(s, events);
      assert r.fired == head + rest.fired && r.state == rest.state;
      Regroup(FiredIds(head), FiredIds(rest.fired), Ids(rest.state.pending), Ids(first.state.pending),
        Ids(s.pending), Ids(SubmittedBy(events[0])), Ids(Submitted(events[1..])));
    }
  }

  lemma Associate<X>(a: seq<X>, b: seq<X>, c: seq<X>)
    ensures (a + b) + c == a + (b + c)
  {
  }

  lemma Regroup<X>(firstFired: seq<X>, restFired: seq<X>, rest: seq<X>, middle: seq<X>, start: seq<X>, one: seq<X>, later: seq<X>)
    requires restFired + rest == middle + later
    requires firstFired + middle == start + one
    ensures (firstFired + restFired) + rest == start + (one + later)
  {
    calc {
      (firstFired + restFired) + rest;
      firstFired + (restFired + rest);
      firstFired + (middle + later);
      (firstFired + middle) + later;
      (start + one) + later;
    }
  }

  /**
   * Starting from an empty queue, the i-th callback is the i-th submitted
   * request's, and the requests still waiting are the submitted ones whose
   * callback has not fired.
   */
  lemma FifoFromIdle<P>(events: seq<Event<P>>)
    ensures var r := Run(Initial<P>(), events);
      && |r.fired| <= |Submitted(events)|
      && (forall i :: 0 <= i < |r.fired| ==> r.fired[i].id == Submitted(events)[i].id)
      && Ids(r.state.pending) == Ids(Submitted(events))[|r.fired|..]
  {
    RunFifo(Initial<P>(), events);
    var r := Run(Initial<P>(), events);
    assert Ids(Initial<P>().pending) == [];
    assert FiredIds(r.fired) + Ids(r.state.pending) == Ids(Submitted(events));
    forall i | 0 <= i < |r.fired|
      ensures r.fired[i].id == Submitted(events)[i].id
    {
      assert FiredIds(r.fired)[i] == Ids(Submitted(events))[i];
    }
  }

  /** No sequence has an element twice. */
  predicate Distinct(s: seq<nat>) {
    forall i, j :: 0 <= i < j < |s| ==> s[i] != s[j]
  }

  /** With distinct request ids, no callback fires twice. */
  lemma FiresAtMostOnce<P>(events: seq<Event<P>>)
    requires Distinct(Ids(Submitted(events)))
    ensures Distinct(FiredIds(Run(Initial<P>(), events).fired))
  {
    var r := Run(Initial<P>(), events);
    RunFifo(Initial<P>(), events);
    assert Ids(Initial<P>().pending) == [];
    var all := Ids(Submitted(events));
    assert FiredIds(r.fired) + Ids(r.state.pending) == all;
    assert FiredIds(r.fired) == all[..|r.fired|];
    forall i, j | 0 <= i < j < |r.fired|
      ensures FiredIds(r.fired)[i] != FiredIds(r.fired)[j]
    {
      assert FiredIds(r.fired)[i] == all[i] && FiredIds(r.fired)[j] == all[j];
    }
  }

  /** A completion never hands anything to the recognizer, and an addition never fires a callback. */
  lemma CompletionNeverStarts<P>(s: State<P>, recognition: Recognition, request: Request<P>)
    requires Consistent(s)
    ensures Step(s, Complete(recognition)).started.None?
    ensures Step(s, Add(request)).fired.None?
  {
  }

  /** A completion of the request in flight fires the head's callback with the chosen string, or a failure. */
  lemma CompletionFiresHead<P>(s: State<P>, recognition: Recognition)
    requires Consistent(s) && s.inFlight
    ensures var r := Step(s, Complete(recognition));
      && r.state.pending == s.pending[1..]
      && r.fired == Some(Fired(s.pending[0].id, ReplyOf(Choose(recognition))))
      && (recognition.Threw? || recognition.NoTextResults? ==> r.fired.value.reply == Failure)
  {
  }

  /** Completion of an empty queue changes nothing and fires nothing. */
  lemma CompletionOnEmpty<P>(chosen: Option<string>)
    ensures CurrentRequestProcessed<P>([], chosen) == Processed([], None)
  {
  }

  /**
   * A stalled queue stays stalled: whatever comes next, nothing is handed
   * to the recognizer, no callback fires, and new requests only pile up.
   */
  lemma {:induction false} StalledForever<P>(s: State<P>, events: seq<Event<P>>)
    requires Stalled(s)
    ensures var r := Run(s, events);
      && r.started == [] && r.fired == []
      && r.state.pending == s.pending + Submitted(events)
      && Stalled(r.state)
    decreases |events|
  {
    if |events| > 0 {
      var first := Step(s, events[0]);
      var one, later := SubmittedBy(events[0]), Submitted(events[1..]);
      assert first.started.None? && first.fired.None?;
      assert first.state.pending == s.pending + one;
      assert Submitted(events) == one + later;
      StalledForever(first.state, events[1..]);
      var rest := Run(first.state, events[1..]);
      assert Run(s, events) == Ran(rest.state, [] + rest.started, [] + rest.fired);
      Associate(s.pending, one, later);
    }
  }

  /** Two requests before the first completes: the second is never processed. */
  lemma SecondRequestStalls<P>(a: Request<P>, b: Request<P>, recognition: Recognition)
    ensures var r := Run(Initial<P>(), [Add(a), Add(b), Complete(recognition)]);
      && r.started == [a]
      && r.fired == [Fired(a.id, ReplyOf(Choose(recognition)))]
      && r.state == State([b], false) && Stalled(r.state)
  {
    var events := [Add(a), Add(b), Complete(recognition)];
    var s1 := Step(Initial<P>(), Add(a));
    assert s1 == Stepped(State([a], true), Some(a), None);
    var s2 := Step(s1.state, Add(b));
    assert s2 == Stepped(State([a, b], true), None, None);
    var s3 := Step(s2.state, Complete(recognition));
    assert [a, b][1..] == [b];
    assert s3 == Stepped(State([b], false), None, Some(Fired(a.id, ReplyOf(Choose(recognition)))));
    assert events[1..] == [Add(b), Complete(recognition)];
    assert events[1..][1..] == [Complete(recognition)];
    var last: seq<Event<P>> := [Complete(recognition)];
    assert |last[1..]| == 0;
    assert Run(s3.state, last[1..]) == Ran(s3.state, [], []);
    var r3 := Run(s2.state, last);
    assert r3 == Ran(State([b], false), [], [Fired(a.id, ReplyOf(Choose(recognition)))]);
    var r2 := Run(s1.state, events[1..]);
    assert r2 == Ran(State([b], false), [], [Fired(a.id, ReplyOf(Choose(recognition)))]);
  }

  /** Every request answered before the next arrives, as when recognition runs to completion inside `addRequest`. */
  function Synchronous<P>(requests: seq<Request<P>>, recognitions: seq<Recognition>): (events: seq<Event<P>>)
    requires |requests| == |recognitions|
    ensures |events| == 2 * |requests|
  {
    if |requests| == 0 then []
    else [Add(requests[0]), Complete(recognitions[0])] + Synchronous(requests[1..], recognitions[1..])
  }

  /**
   * When each request completes before the next is added, every request
   * is handed to the recognizer, every callback fires in order with its
   * own recognition's result, and the queue ends empty.
   */
  lemma {:induction false} SynchronousDrains<P>(requests: seq<Request<P>>, recognitions: seq<Recognition>)
    requires |requests| == |recognitions|
    ensures var r := Run(Initial<P>(), Synchronous(requests, recognitions));
      && r.state == Initial<P>()
      && r.started == requests
      && |r.fired| == |requests|
      && forall i :: 0 <= i < |requests| ==> r.fired[i] == Fired(requests[i].id, ReplyOf(Choose(recognitions[i])))
  {
    if |requests| > 0 {
      var tail := Synchronous(requests[1..], recognitions[1..]);
      SynchronousDrains(requests[1..], recognitions[1..]);
      AnsweredFirst(requests[0], recognitions[0], tail);
      assert requests == [requests[0]] + requests[1..];
    }
  }

  /** A request answered at once on an idle queue leaves the queue idle again. */
  lemma AnsweredFirst<P>(request: Request<P>, recognition: Recognition, tail: seq<Event<P>>)
    ensures var r := Run(Initial<P>(), [Add(request), Complete(recognition)] + tail);
      var rest := Run(Initial<P>(), tail);
      && r.state == rest.state
      && r.started == [request] + rest.started
      && r.fired == [Fired(request.id, ReplyOf(Choose(recognition)))] + rest.fired
  {
    var events := [Add(request), Complete(recognition)] + tail;
    var s1 := Step(Initial<P>(), Add(request));
    assert s1.state == State([request], true);
    var s2 := Step(s1.state, Complete(recognition));
    assert s2.state == Initial<P>();
    assert events[1..] == [Complete(recognition)] + tail;
    assert events[1..][1..] == tail;
    var rest := Run(Initial<P>(), tail);
    var middle := Run(s1.state, events[1..]);
    assert middle.state == rest.state && middle.started == rest.started && middle.fired == OptionToSeq(s2.fired) + rest.fired;
  }
}
