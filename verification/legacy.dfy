/** The older single-file revision of the service (`main.go`). Its activity, store
    and submission logic is written here in the imperative shape of that file, with
    loops, and each operation is proved to behave exactly like the package revision. */
module Legacy {
  import opened Results
  import A = Activities
  import S = Store
  import H = Handler

  /** The two package-level globals: the activity store and the record channel. */
  datatype Server = Server(activityStore: S.ActivityMap, recordChan: seq<H.SubmissionRecord>)

  /** `Validate`: the single pass with running maximum, minimum and option count,
      returning the package function's verdict in every case. */
  method Validate(a: A.Activity) returns (err: Outcome<A.ValidationError>)
    ensures err == A.Validate(a)
  {
    if a.identifier == "" {
      return Fail(A.MissingIdentifier);
    }
    var maximum := 0.0;
    var minimum := 1.0;
    var numOptions := 0;
    var i := 0;
    while i < |a.options|
      invariant i <= |a.options| && numOptions == i
      // The next two invariants document the running values (max(0, grades[..i]) and
      // min(1, grades[..i])); the equality with the package scan carries the proof.
      invariant forall k :: 0 <= k < i ==> A.InRange(a.options[k].grade)
      invariant maximum == A.RunningMax(a.options, i) && minimum == A.RunningMin(a.options, i)
      invariant A.ScanGrades(a, i, maximum, minimum) == A.ScanGrades(a, 0, 0.0, 1.0)
    {
      var option := a.options[i];
      maximum := A.Max(maximum, option.grade);
      minimum := A.Min(minimum, option.grade);
      numOptions := numOptions + 1;
      if maximum > 1.0 || minimum < 0.0 {
        return Fail(A.GradeOutOfRange(a.identifier, option.grade));
      }
      i := i + 1;
    }
    if numOptions == 0 {
      return Fail(A.NoOptions(a.identifier));
    }
    if maximum != 1.0 {
      return Fail(A.NoFullCredit(a.identifier));
    }
    return Pass;
  }

  /** `Grade`: the first option whose answer matches, else grade 0 and the activity hint. */
  method Grade(a: A.Activity, s: A.Submission) returns (fb: A.SubmissionFeedback)
    ensures fb == A.Grade(a, s)
    ensures forall j :: A.FirstMatch(a.options, s.answer, j) ==>
              fb == A.SubmissionFeedback(a.options[j].grade, a.options[j].hint)
    ensures A.NoMatch(a.options, s.answer) ==> fb == A.SubmissionFeedback(0.0, a.hint)
  {
    var i := 0;
    while i < |a.options|
      invariant i <= |a.options|
      invariant forall k :: 0 <= k < i ==> a.options[k].answer != s.answer
    {
      var option := a.options[i];
      if option.answer == s.answer {
        return A.SubmissionFeedback(option.grade, option.hint);
      }
      i := i + 1;
    }
    return A.SubmissionFeedback(0.0, a.hint);
  }

  /** `Add`: rejects a taken identifier, leaving the store as it was; else inserts. */
  method Add(store: S.ActivityMap, a: A.Activity) returns (store': S.ActivityMap, err: Outcome<S.StoreError>)
    ensures (store', err) == S.Add(store, a)
    ensures err.Fail? <==> a.identifier in store
    ensures err.Fail? ==> store' == store
    ensures err.Pass? ==> store' == store[a.identifier := a]
  {
    if a.identifier in store {
      return store, Fail(S.DuplicateIdentifier(a.identifier));
    }
    return store[a.identifier := a], Pass;
  }

  /** `Get`: the stored activity, or the zero-value activity and an error. This is the
      corrected lookup, whose error names the requested identifier; the line as written
      formats the zero value's empty identifier, which `Store.GetAsWritten` models. */
  method Get(store: S.ActivityMap, identifier: string) returns (activity: A.Activity, err: Outcome<S.StoreError>)
    ensures (activity, err) == S.Get(store, identifier)
    ensures err.Fail? <==> identifier !in store
    ensures err.Fail? ==> activity == S.ZeroActivity
  {
    if identifier !in store {
      return S.ZeroActivity, Fail(S.InvalidIdentifier(identifier));
    }
    return store[identifier], Pass;
  }

  /** `loadActivities`: validate and add each decoded activity in turn; the first
      failure aborts start-up. Its success condition spells out `Store.ValidUpTo` and
      `Store.DistinctUpTo`, as `Store.NewActivityStore` does. */
  method LoadActivities(activities: seq<A.Activity>) returns (r: Result<S.ActivityMap, S.LoadError>)
    ensures r == S.NewActivityStore(activities)
    ensures r.Ok? <==>
              && (forall k {:trigger A.Validate(activities[k])} :: 0 <= k < |activities| ==> A.Validate(activities[k]).Pass?)
              && (forall k, l :: 0 <= k < l < |activities| ==> activities[k].identifier != activities[l].identifier)
  {
    var store: S.ActivityMap := map[];
    var i := 0;
    while i < |activities|
      invariant i <= |activities|
      invariant S.LoadFrom(activities, i, store) == S.LoadFrom(activities, 0, map[])
    {
      var activity := activities[i];
      var verdict := Validate(activity);
      if verdict.Fail? {
        return Err(S.InvalidActivity(i));
      }
      var store', err := Add(store, activity);
      if err.Fail? {
        return Err(S.DuplicateActivity(i, activity.identifier));
      }
      store := store';
      i := i + 1;
    }
    return Ok(store);
  }

  /** `postSubmission`: the same decision as the package handler, on the globals; the
      record is sent to the channel before grading, and the store is left untouched. */
  method PostSubmission(server: Server, req: H.Request) returns (response: H.Response, server': Server)
    ensures var (resp, h) := H.Post(H.SubmissionHandler(server.activityStore, server.recordChan), req);
            response == resp && server' == Server(h.activityStore, h.records)
    ensures server'.activityStore == server.activityStore
    ensures response.Graded? <==>
              req.contentType == H.JsonMediaType && req.submission.identifier in server.activityStore
    ensures response.Graded? ==>
              server'.recordChan == server.recordChan + [H.SubmissionRecord(req.submission, req.now)]
    ensures !response.Graded? ==> server'.recordChan == server.recordChan
  {
    if req.contentType != H.JsonMediaType {
      return H.UnsupportedMediaType, server;
    }
    var activity, err := Get(server.activityStore, req.submission.identifier);
    if err.Fail? {
      return H.ActivityNotFound, server;
    }
    server' := server.(recordChan := server.recordChan + [H.SubmissionRecord(req.submission, req.now)]);
    var feedback := Grade(activity, req.submission);
    response := H.Graded(feedback);
  }
}
