/** The activity store (package `store`): a map from identifier to activity, filled
    once at start-up by validating and adding every activity, read-only afterwards. */
module Store {
  import opened Results
  import opened Activities

  type ActivityMap = map<string, Activity>

  datatype StoreError = DuplicateIdentifier(identifier: string) | InvalidIdentifier(identifier: string)

  /** Where loading stopped: the position in the input of the activity that failed
      validation, or that repeated an identifier already added. */
  datatype LoadError = InvalidActivity(position: nat) | DuplicateActivity(position: nat, identifier: string)

  /** Go's zero value of `Activity`, returned alongside a lookup error. */
  const ZeroActivity: Activity := Activity("", [], "")

  /** Every stored activity sits under its own identifier. */
  predicate KeyedByIdentifier(store: ActivityMap) {
    forall id :: id in store ==> store[id].identifier == id
  }

  /** `Add`: inserts under the activity's identifier unless that key is taken, in
      which case the store is left as it was and a duplicate error is returned. */
  function Add(store: ActivityMap, a: Activity): (r: (ActivityMap, Outcome<StoreError>))
    ensures r.1.Fail? <==> a.identifier in store
    ensures r.1.Fail? ==> r.0 == store && r.1.error == DuplicateIdentifier(a.identifier)
    ensures r.1.Pass? ==> r.0.Keys == store.Keys + {a.identifier} && r.0[a.identifier] == a
    ensures forall id :: id != a.identifier ==>
              (id in r.0 <==> id in store) && (id in store ==> r.0[id] == store[id])
    ensures KeyedByIdentifier(store) ==> KeyedByIdentifier(r.0)
  {
    if a.identifier in store then (store, Fail(DuplicateIdentifier(a.identifier)))
    else (store[a.identifier := a], Pass)
  }

  /** `Get`: the stored activity, or the zero-value activity with an error naming
      the identifier that was asked for. */
  function Get(store: ActivityMap, identifier: string): (r: (Activity, Outcome<StoreError>))
    ensures r.1.Pass? <==> identifier in store
    ensures r.1.Pass? ==> r.0 == store[identifier]
    ensures r.1.Fail? ==> r.0 == ZeroActivity && r.1.error == InvalidIdentifier(identifier)
  {
    if identifier in store then (store[identifier], Pass)
    else (ZeroActivity, Fail(InvalidIdentifier(identifier)))
  }

  /** `Get` as written: its error message formats the identifier of the zero-value
      activity it is about to return, so it always names the empty identifier. */
  function GetAsWritten(store: ActivityMap, identifier: string): (r: (Activity, Outcome<StoreError>))
    ensures r.1.Pass? <==> identifier in store
    ensures r.1.Fail? ==> r.0 == ZeroActivity && r.1.error == InvalidIdentifier("")
  {
    if identifier in store then (store[identifier], Pass)
    else
      var activity := ZeroActivity;
      (activity, Fail(InvalidIdentifier(activity.identifier)))
  }

  /** The as-written lookup error loses the identifier; the corrected one keeps it. */
  lemma GetAsWrittenLosesIdentifier()
    ensures GetAsWritten(map[], "q1").1 == Fail(InvalidIdentifier(""))
    ensures Get(map[], "q1").1 == Fail(InvalidIdentifier("q1"))
    ensures GetAsWritten(map[], "q1") != Get(map[], "q1")
  {
  }

  /** Apart from the error text, the two lookups agree. */
  lemma GetAsWrittenAgreesOnValue(store: ActivityMap, identifier: string)
    ensures GetAsWritten(store, identifier).0 == Get(store, identifier).0
    ensures GetAsWritten(store, identifier).1.Pass? == Get(store, identifier).1.Pass?
  {
  }

  /** Adding a fresh activity makes it retrievable under its identifier. */
  lemma AddThenGet(store: ActivityMap, a: Activity)
    requires a.identifier !in store
    ensures Add(store, a).1 == Pass
    ensures Get(Add(store, a).0, a.identifier) == (a, Pass)
  {
  }

  /** A second activity with the same identifier is rejected and the first is kept. */
  lemma AddDuplicateRetainsOriginal(store: ActivityMap, a: Activity, b: Activity)
    requires a.identifier !in store && b.identifier == a.identifier
    ensures Add(Add(store, a).0, b).1 == Fail(DuplicateIdentifier(a.identifier))
    ensures Get(Add(Add(store, a).0, b).0, a.identifier) == (a, Pass)
  {
  }

  predicate ValidUpTo(activities: seq<Activity>, n: nat)
    requires n <= |activities|
  {
    forall k {:trigger Validate(activities[k])} :: 0 <= k < n ==> Validate(activities[k]).Pass?
  }

  predicate DistinctUpTo(activities: seq<Activity>, n: nat)
    requires n <= |activities|
  {
    forall k, l :: 0 <= k < l < n ==> activities[k].identifier != activities[l].identifier
  }

  function IdentifiersUpTo(activities: seq<Activity>, n: nat): set<string>
    requires n <= |activities|
  {
    set k | 0 <= k < n :: activities[k].identifier
  }

  /** The store holds exactly activities[..n], each under its identifier. */
  predicate HoldsUpTo(store: ActivityMap, activities: seq<Activity>, n: nat)
    requires n <= |activities|
  {
    && store.Keys == IdentifiersUpTo(activities, n)
    && forall k :: 0 <= k < n ==> store[activities[k].identifier] == activities[k]
  }

  /** The loading loop from position i on: validate, then add; the first failure aborts. */
  function LoadFrom(activities: seq<Activity>, i: nat, store: ActivityMap): Result<ActivityMap, LoadError>
    requires i <= |activities|
    decreases |activities| - i
  {
    if i == |activities| then Ok(store)
    else
      var a := activities[i];
      if Validate(a).Fail? then Err(InvalidActivity(i))
      else
        var (store', err) := Add(store, a);
        if err.Fail? then Err(DuplicateActivity(i, a.identifier))
        else LoadFrom(activities, i + 1, store')
  }

  /** One successful iteration of the loader extends what it holds by activities[i]. */
  lemma AddStep(activities: seq<Activity>, i: nat, store: ActivityMap)
    requires i < |activities|
    requires DistinctUpTo(activities, i) && HoldsUpTo(store, activities, i)
    requires activities[i].identifier !in store
    ensures DistinctUpTo(activities, i + 1)
    ensures HoldsUpTo(store[activities[i].identifier := activities[i]], activities, i + 1)
  {
  }

  /** An activity whose identifier is already held repeats an earlier identifier. */
  lemma RepeatedIdentifier(activities: seq<Activity>, i: nat, store: ActivityMap)
    requires i < |activities|
    requires HoldsUpTo(store, activities, i)
    requires activities[i].identifier in store
    ensures !DistinctUpTo(activities, |activities|)
  {
  }

  /** Loop invariant of the loader, success side: having added activities[..i], the
      rest of the loop succeeds exactly when all activities validate and identifiers
      are distinct, and then the store holds exactly all of them. */
  lemma {:induction false} LoadFromSucceeds(activities: seq<Activity>, i: nat, store: ActivityMap)
    requires i <= |activities|
    requires ValidUpTo(activities, i) && DistinctUpTo(activities, i)
    requires HoldsUpTo(store, activities, i)
    ensures LoadFrom(activities, i, store).Ok? <==>
              ValidUpTo(activities, |activities|) && DistinctUpTo(activities, |activities|)
    ensures LoadFrom(activities, i, store).Ok? ==>
              HoldsUpTo(LoadFrom(activities, i, store).value, activities, |activities|)
    decreases |activities| - i
  {
    if i < |activities| {
      var a := activities[i];
      if Validate(a).Fail? {
        assert !ValidUpTo(activities, |activities|);
      } else if a.identifier in store {
        RepeatedIdentifier(activities, i, store);
      } else {
        AddStep(activities, i, store);
        LoadFromSucceeds(activities, i + 1, store[a.identifier := a]);
      }
    }
  }

  /** Loading stopped with error e at or after position i, at the first activity that
      failed validation or repeated an identifier held before it. */
  predicate StoppedAt(activities: seq<Activity>, i: nat, e: LoadError) {
    && i <= e.position < |activities|
    && ValidUpTo(activities, e.position) && DistinctUpTo(activities, e.position)
    && (e.InvalidActivity? <==> Validate(activities[e.position]).Fail?)
    && (e.DuplicateActivity? ==>
          && e.identifier == activities[e.position].identifier
          && e.identifier in IdentifiersUpTo(activities, e.position))
  }

  /** Loop invariant of the loader, failure side: a failure is reported at the first
      position whose activity does not validate or repeats an earlier identifier. */
  lemma {:induction false} LoadFromFails(activities: seq<Activity>, i: nat, store: ActivityMap)
    requires i <= |activities|
    requires ValidUpTo(activities, i) && DistinctUpTo(activities, i)
    requires HoldsUpTo(store, activities, i)
    ensures LoadFrom(activities, i, store).Err? ==> StoppedAt(activities, i, LoadFrom(activities, i, store).error)
    decreases |activities| - i
  {
    if i < |activities| {
      var a := activities[i];
      if Validate(a).Pass? && a.identifier !in store {
        AddStep(activities, i, store);
        LoadFromFails(activities, i + 1, store[a.identifier := a]);
      }
    }
  }

  /** The store-building loop: succeeds exactly when every activity validates and no
      identifier repeats, and then holds exactly the given activities by identifier;
      otherwise it aborts at the first activity that fails either test. The quantifiers
      of `ValidUpTo`, `DistinctUpTo` and `HoldsUpTo` are written out here so that callers
      read the contract without unfolding those predicates. */
  function NewActivityStore(activities: seq<Activity>): (r: Result<ActivityMap, LoadError>)
    ensures r.Ok? <==>
              && (forall k {:trigger Validate(activities[k])} :: 0 <= k < |activities| ==> Validate(activities[k]).Pass?)
              && (forall k, l :: 0 <= k < l < |activities| ==> activities[k].identifier != activities[l].identifier)
    ensures r.Ok? ==>
              && r.value.Keys == (set k | 0 <= k < |activities| :: activities[k].identifier)
              && (forall k :: 0 <= k < |activities| ==> r.value[activities[k].identifier] == activities[k])
              && KeyedByIdentifier(r.value)
    ensures r.Err? ==>
              && r.error.position < |activities|
              && (forall k {:trigger Validate(activities[k])} :: 0 <= k < r.error.position ==> Validate(activities[k]).Pass?)
              && (forall k, l :: 0 <= k < l < r.error.position ==> activities[k].identifier != activities[l].identifier)
              && (r.error.InvalidActivity? <==> Validate(activities[r.error.position]).Fail?)
              && (r.error.DuplicateActivity? ==>
                    && r.error.identifier == activities[r.error.position].identifier
                    && exists k :: 0 <= k < r.error.position && activities[k].identifier == r.error.identifier)
  {
    assert HoldsUpTo(map[], activities, 0);
    LoadFromSucceeds(activities, 0, map[]);
    LoadFromFails(activities, 0, map[]);
    LoadFrom(activities, 0, map[])
  }
}
