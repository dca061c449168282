/** The activity model of the grading service: validating an activity's answer key
    and grading one submission against it (package `activity`). */
module Activities {
  import opened Results

  /** One scored answer alternative. Grades are compared but never computed with,
      so they are modelled as reals. */
  datatype Option = Option(answer: string, grade: real, hint: string)

  /** A gradable question: its identifier, its options in authoring order, and the
      fallback hint given when no option matches. */
  datatype Activity = Activity(identifier: string, options: seq<Option>, hint: string)

  datatype Submission = Submission(identifier: string, answer: string, session: string)

  datatype SubmissionFeedback = SubmissionFeedback(grade: real, hint: string)

  /** The four failures `Validate` reports, carrying what its messages name. */
  datatype ValidationError =
    | MissingIdentifier
    | GradeOutOfRange(activity: string, grade: real)
    | NoOptions(activity: string)
    | NoFullCredit(activity: string)

  function Max(x: real, y: real): real { if x >= y then x else y }

  function Min(x: real, y: real): real { if x <= y then x else y }

  predicate InRange(g: real) { 0.0 <= g <= 1.0 }

  predicate AllInRange(options: seq<Option>) {
    forall i :: 0 <= i < |options| ==> InRange(options[i].grade)
  }

  predicate HasFullCredit(options: seq<Option>) {
    exists i :: 0 <= i < |options| && options[i].grade == 1.0
  }

  /** The data-model invariant every stored activity must satisfy. */
  predicate WellFormed(a: Activity) {
    && a.identifier != ""
    && |a.options| > 0
    && AllInRange(a.options)
    && HasFullCredit(a.options)
  }

  /** Option j is the earliest one whose grade lies outside [0, 1]. */
  predicate FirstOutOfRange(options: seq<Option>, j: int) {
    && 0 <= j < |options|
    && !InRange(options[j].grade)
    && forall i :: 0 <= i < j ==> InRange(options[i].grade)
  }

  /** max(0.0, grades of options[..k]): the running maximum after k iterations. */
  function RunningMax(options: seq<Option>, k: nat): real
    requires k <= |options|
  {
    if k == 0 then 0.0 else Max(RunningMax(options, k - 1), options[k - 1].grade)
  }

  /** min(1.0, grades of options[..k]): the running minimum after k iterations. */
  function RunningMin(options: seq<Option>, k: nat): real
    requires k <= |options|
  {
    if k == 0 then 1.0 else Min(RunningMin(options, k - 1), options[k - 1].grade)
  }

  /** While every grade seen so far is in range, both running values stay in [0, 1]
      and the maximum reaches 1.0 exactly when some grade seen so far is 1.0. */
  lemma {:induction false} RunningBounds(options: seq<Option>, k: nat)
    requires k <= |options|
    requires forall i :: 0 <= i < k ==> InRange(options[i].grade)
    ensures InRange(RunningMax(options, k)) && InRange(RunningMin(options, k))
    ensures RunningMax(options, k) == 1.0 <==> exists i :: 0 <= i < k && options[i].grade == 1.0
  {
    if k > 0 {
      RunningBounds(options, k - 1);
    }
  }

  /** A grade outside [0, 1] among options[..n] means there is an earliest such grade. */
  lemma {:induction false} OutOfRangeHasFirst(options: seq<Option>, n: nat)
    requires n <= |options|
    requires exists i :: 0 <= i < n && !InRange(options[i].grade)
    ensures exists j :: FirstOutOfRange(options, j)
  {
    if exists i :: 0 <= i < n - 1 && !InRange(options[i].grade) {
      OutOfRangeHasFirst(options, n - 1);
    } else {
      assert FirstOutOfRange(options, n - 1);
    }
  }

  /** The loop of `Validate` from iteration k on, with the running maximum and
      minimum as accumulators; the count of options seen is k itself. */
  function ScanGrades(a: Activity, k: nat, maximum: real, minimum: real): Outcome<ValidationError>
    requires k <= |a.options|
    decreases |a.options| - k
  {
    if k == |a.options| then
      if k == 0 then Fail(NoOptions(a.identifier))
      else if maximum != 1.0 then Fail(NoFullCredit(a.identifier))
      else Pass
    else
      var grade := a.options[k].grade;
      var maximum' := Max(maximum, grade);
      var minimum' := Min(minimum, grade);
      if maximum' > 1.0 || minimum' < 0.0 then Fail(GradeOutOfRange(a.identifier, grade))
      else ScanGrades(a, k + 1, maximum', minimum')
  }

  /** Loop invariant of `Validate`: when the accumulators hold max(0, grades[..k]) and
      min(1, grades[..k]) and no earlier grade was out of range, the rest of the scan
      reports the first out-of-range grade, or else the end-of-loop verdict. */
  lemma {:induction false} ScanGradesVerdict(a: Activity, k: nat, maximum: real, minimum: real)
    requires k <= |a.options|
    requires forall i :: 0 <= i < k ==> InRange(a.options[i].grade)
    requires maximum == RunningMax(a.options, k) && minimum == RunningMin(a.options, k)
    ensures forall j :: FirstOutOfRange(a.options, j) ==>
              ScanGrades(a, k, maximum, minimum) == Fail(GradeOutOfRange(a.identifier, a.options[j].grade))
    ensures AllInRange(a.options) && |a.options| == 0 ==>
              ScanGrades(a, k, maximum, minimum) == Fail(NoOptions(a.identifier))
    ensures AllInRange(a.options) && |a.options| > 0 && !HasFullCredit(a.options) ==>
              ScanGrades(a, k, maximum, minimum) == Fail(NoFullCredit(a.identifier))
    ensures AllInRange(a.options) && |a.options| > 0 && HasFullCredit(a.options) ==>
              ScanGrades(a, k, maximum, minimum) == Pass
    decreases |a.options| - k
  {
    RunningBounds(a.options, k);
    if k < |a.options| {
      var grade := a.options[k].grade;
      if InRange(grade) {
        ScanGradesVerdict(a, k + 1, Max(maximum, grade), Min(minimum, grade));
      } else {
        assert forall j :: FirstOutOfRange(a.options, j) ==> j == k;
      }
    }
  }

  /** `Validate`: fails fast on an empty identifier, then scans the options once. */
  function Validate(a: Activity): Outcome<ValidationError>
  {
    if a.identifier == "" then Fail(MissingIdentifier)
    else ScanGrades(a, 0, 0.0, 1.0)
  }

  /** What `Validate` decides: success exactly for well-formed activities, and for the
      others the error of the first check that fails, in the order the code makes them. */
  lemma ValidateVerdict(a: Activity)
    ensures Validate(a) == Pass <==> WellFormed(a)
    ensures a.identifier == "" ==> Validate(a) == Fail(MissingIdentifier)
    ensures a.identifier != "" ==> forall j :: FirstOutOfRange(a.options, j) ==>
              Validate(a) == Fail(GradeOutOfRange(a.identifier, a.options[j].grade))
    ensures a.identifier != "" && |a.options| == 0 ==> Validate(a) == Fail(NoOptions(a.identifier))
    ensures a.identifier != "" && |a.options| > 0 && AllInRange(a.options) && !HasFullCredit(a.options) ==>
              Validate(a) == Fail(NoFullCredit(a.identifier))
  {
    if a.identifier != "" {
      ScanGradesVerdict(a, 0, 0.0, 1.0);
      if !AllInRange(a.options) {
        OutOfRangeHasFirst(a.options, |a.options|);
      }
    }
  }

  /** Option j is the earliest one whose answer equals `answer` byte for byte. */
  predicate FirstMatch(options: seq<Option>, answer: string, j: int) {
    && 0 <= j < |options|
    && options[j].answer == answer
    && forall i :: 0 <= i < j ==> options[i].answer != answer
  }

  predicate NoMatch(options: seq<Option>, answer: string) {
    forall i :: 0 <= i < |options| ==> options[i].answer != answer
  }

  /** The loop of `Grade` from option k on: a linear search that stops at the first
      exact match and otherwise falls back to grade 0 and the fallback hint. */
  function GradeFrom(options: seq<Option>, answer: string, fallback: string, k: nat): (fb: SubmissionFeedback)
    requires k <= |options|
    ensures forall j :: k <= j < |options| && options[j].answer == answer
                        && (forall i :: k <= i < j ==> options[i].answer != answer) ==>
              fb == SubmissionFeedback(options[j].grade, options[j].hint)
    ensures (forall i :: k <= i < |options| ==> options[i].answer != answer) ==>
              fb == SubmissionFeedback(0.0, fallback)
    ensures || fb == SubmissionFeedback(0.0, fallback)
            || exists j :: k <= j < |options| && options[j].answer == answer
                           && fb == SubmissionFeedback(options[j].grade, options[j].hint)
    decreases |options| - k
  {
    if k == |options| then SubmissionFeedback(0.0, fallback)
    else if options[k].answer == answer then SubmissionFeedback(options[k].grade, options[k].hint)
    else GradeFrom(options, answer, fallback, k + 1)
  }

  /** `Grade`: the feedback of the first option whose answer equals the submitted one,
      else grade 0 with the activity's own hint. */
  function Grade(a: Activity, s: Submission): (fb: SubmissionFeedback)
    ensures forall j :: FirstMatch(a.options, s.answer, j) ==>
              fb == SubmissionFeedback(a.options[j].grade, a.options[j].hint)
    ensures NoMatch(a.options, s.answer) ==> fb == SubmissionFeedback(0.0, a.hint)
    ensures || fb == SubmissionFeedback(0.0, a.hint)
            || exists j :: 0 <= j < |a.options| && a.options[j].answer == s.answer
                           && fb == SubmissionFeedback(a.options[j].grade, a.options[j].hint)
  {
    GradeFrom(a.options, s.answer, a.hint, 0)
  }

  /** Two options sharing the submitted answer: the earlier one decides the feedback,
      whatever the later one scores. */
  lemma EarlierDuplicateWins(a: Activity, s: Submission, i: nat, j: nat)
    requires i < j < |a.options|
    requires a.options[i].answer == s.answer == a.options[j].answer
    requires forall k :: 0 <= k < i ==> a.options[k].answer != s.answer
    ensures Grade(a, s) == SubmissionFeedback(a.options[i].grade, a.options[i].hint)
  {
  }

  /** Grading reads only the submitted answer, never its identifier or session. */
  lemma GradeDependsOnlyOnAnswer(a: Activity, s1: Submission, s2: Submission)
    requires s1.answer == s2.answer
    ensures Grade(a, s1) == Grade(a, s2)
  {
  }

  /** For an activity that passed validation, every grade handed out lies in [0, 1]. */
  lemma ValidatedGradeInRange(a: Activity, s: Submission)
    requires Validate(a) == Pass
    ensures InRange(Grade(a, s).grade)
  {
    ValidateVerdict(a);
  }

  /** Example: a duplicated answer "a" is graded by its first, partial-credit option. */
  lemma DuplicateAnswerExample()
    ensures Grade(Activity("q4", [Option("a", 0.5, "partial"), Option("a", 1.0, "full")], "try again"),
                  Submission("q4", "a", "s1"))
            == SubmissionFeedback(0.5, "partial")
  {
  }
}
