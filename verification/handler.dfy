/** The decision path of the submission endpoint (package `handler`), with the HTTP
    transport, JSON decoding and the record goroutine stripped away: a request is
    its Content-Type header, its decoded submission and an opaque timestamp the
    record carries. */
module Handler {
  import opened Results
  import opened Activities
  import opened Store

  /** The only Content-Type accepted, compared as an exact string. */
  const JsonMediaType: string := "application/json"

  /** An opaque UTC timestamp, the value the Go code takes from `time.Now().UTC()`;
      only carried into records, never inspected. */
  type Timestamp = int

  datatype SubmissionRecord = SubmissionRecord(submission: Submission, timestamp: Timestamp)

  /** `now` is the timestamp the record is stamped with, an opaque input. */
  datatype Request = Request(contentType: string, submission: Submission, now: Timestamp)

  datatype Response =
    | UnsupportedMediaType
    | ActivityNotFound
    | Graded(feedback: SubmissionFeedback)
  {
    function StatusCode(): int {
      match this
      case UnsupportedMediaType => 415
      case ActivityNotFound => 404
      case Graded(_) => 200
    }
  }

  /** The handler's state: the store it reads and the records sent to its channel. */
  datatype SubmissionHandler = SubmissionHandler(activityStore: ActivityMap, records: seq<SubmissionRecord>)

  /** `Post`: check the media type, look the activity up, enqueue a record, grade. */
  function Post(h: SubmissionHandler, req: Request): (r: (Response, SubmissionHandler))
    ensures r.1.activityStore == h.activityStore
    ensures r.0.Graded? ==> r.1.records == h.records + [SubmissionRecord(req.submission, req.now)]
    ensures !r.0.Graded? ==> r.1.records == h.records
  {
    if req.contentType != JsonMediaType then (UnsupportedMediaType, h)
    else
      var (activity, err) := Get(h.activityStore, req.submission.identifier);
      if err.Fail? then (ActivityNotFound, h)
      else
        var h' := h.(records := h.records + [SubmissionRecord(req.submission, req.now)]);
        (Graded(Grade(activity, req.submission)), h')
  }

  /** Any other Content-Type is refused with 415 before the store is consulted and
      without a record. */
  lemma PostRejectsOtherMediaTypes(h: SubmissionHandler, req: Request)
    requires req.contentType != JsonMediaType
    ensures Post(h, req) == (UnsupportedMediaType, h)
    ensures Post(h, req).0.StatusCode() == 415
  {
  }

  /** A media-type parameter is not tolerated: the header must match exactly. */
  lemma CharsetParameterRejected(h: SubmissionHandler, s: Submission, now: Timestamp)
    ensures Post(h, Request("application/json; charset=utf-8", s, now)).0 == UnsupportedMediaType
  {
  }

  /** An identifier missing from the store yields 404, no feedback and no record. */
  lemma PostUnknownActivity(h: SubmissionHandler, req: Request)
    requires req.contentType == JsonMediaType
    requires req.submission.identifier !in h.activityStore
    ensures Post(h, req) == (ActivityNotFound, h)
    ensures Post(h, req).0.StatusCode() == 404
  {
  }

  /** A known identifier yields 200 with the looked-up activity's grading of the
      submission, and exactly one record carrying the submission unchanged. */
  lemma PostGradesKnownActivity(h: SubmissionHandler, req: Request)
    requires req.contentType == JsonMediaType
    requires req.submission.identifier in h.activityStore
    ensures Post(h, req).0 == Graded(Grade(h.activityStore[req.submission.identifier], req.submission))
    ensures Post(h, req).0.StatusCode() == 200
    ensures Post(h, req).1.records == h.records + [SubmissionRecord(req.submission, req.now)]
  {
  }

  /** The handler reads the store only at the submitted identifier: two stores that
      agree there give the same response and the same records. */
  lemma PostReadsOnlySubmittedEntry(h1: SubmissionHandler, h2: SubmissionHandler, req: Request)
    requires h1.records == h2.records
    requires var id := req.submission.identifier;
             (id in h1.activityStore <==> id in h2.activityStore)
             && (id in h1.activityStore ==> h1.activityStore[id] == h2.activityStore[id])
    ensures Post(h1, req).0 == Post(h2, req).0
    ensures Post(h1, req).1.records == Post(h2, req).1.records
  {
  }

  /** The records a sequence of requests leaves behind: one per graded request, in order. */
  function Accepted(store: ActivityMap, reqs: seq<Request>): seq<SubmissionRecord>
  {
    if reqs == [] then []
    else
      var req := reqs[0];
      var rest := Accepted(store, reqs[1..]);
      if req.contentType == JsonMediaType && req.submission.identifier in store
      then [SubmissionRecord(req.submission, req.now)] + rest
      else rest
  }

  /** Serving requests one after another, collecting the responses. */
  function ServeAll(h: SubmissionHandler, reqs: seq<Request>): (r: (seq<Response>, SubmissionHandler))
    ensures |r.0| == |reqs|
    decreases |reqs|
  {
    if reqs == [] then ([], h)
    else
      var (resp, h') := Post(h, reqs[0]);
      var (resps, h'') := ServeAll(h', reqs[1..]);
      ([resp] + resps, h'')
  }

  /** Over any run of requests the store is never changed, and the channel receives
      exactly one record per graded request, in request order, and nothing else. */
  lemma {:induction false} ServeAllRecordsExactlyAccepted(h: SubmissionHandler, reqs: seq<Request>)
    ensures ServeAll(h, reqs).1.activityStore == h.activityStore
    ensures ServeAll(h, reqs).1.records == h.records + Accepted(h.activityStore, reqs)
    ensures forall i :: 0 <= i < |reqs| ==>
              (ServeAll(h, reqs).0[i].Graded? <==>
                 reqs[i].contentType == JsonMediaType && reqs[i].submission.identifier in h.activityStore)
    decreases |reqs|
  {
    if reqs != [] {
      var h' := Post(h, reqs[0]).1;
      ServeAllRecordsExactlyAccepted(h', reqs[1..]);
      var rest := ServeAll(h', reqs[1..]);
      forall i | 1 <= i < |reqs|
        ensures ServeAll(h, reqs).0[i] == rest.0[i - 1]
      {
      }
    }
  }

  const ExampleActivity: Activity := Activity("q1", [Option("4", 1.0, "correct")], "try again")

  const ExampleHandler: SubmissionHandler := SubmissionHandler(map["q1" := ExampleActivity], [])

  /** Examples: a correct answer, a wrong answer, an unknown activity. */
  lemma EndToEndExamples(now: Timestamp)
    ensures Post(ExampleHandler, Request(JsonMediaType, Submission("q1", "4", "s1"), now)).0
            == Graded(SubmissionFeedback(1.0, "correct"))
    ensures Post(ExampleHandler, Request(JsonMediaType, Submission("q1", "5", "s1"), now)).0
            == Graded(SubmissionFeedback(0.0, "try again"))
    ensures Post(ExampleHandler, Request(JsonMediaType, Submission("unknown", "4", "s1"), now))
            == (ActivityNotFound, ExampleHandler)
  {
  }
}
