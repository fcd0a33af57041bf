/** Aggregate policies (`parallel` and `orPolicy` in lib/index.js): a policy
    function that runs several registered policies, waits for all of them,
    and hands their results, keyed by name, to an error handler that decides
    whether the aggregate continues or throws. */
module Aggregation {
  import opened Outcomes
  import opened Registry

  type HandlerId = nat

  /** The error handler an aggregate reduces its results with: the default
      one, the one orPolicy supplies, or a function passed by the caller. */
  datatype ErrorHandler = DefaultHandler | OrHandler | CustomHandler(id: HandlerId)

  /** A policy function listed on a route: an opaque one, or an aggregate
      whose `runs` property lists its constituents' names. */
  datatype Callable = Opaque(id: PolicyId) | Aggregate(runs: seq<string>, handler: ErrorHandler)

  /** What each constituent settled to, keyed by policy name. A fulfilled
      constituent is `{ status: 'ok' }`, a rejected one `{ status: 'error', err }`. */
  type Results = map<string, Settled>

  /** The oracle standing for code outside the engine: how each policy
      function settles for the request at hand, and what each caller-supplied
      error handler throws, if anything. */
  datatype World = World(behaviour: PolicyId -> Settled, custom: (HandlerId, seq<string>, Results) -> Option<Thrown>)

  /** The TypeError raised by reading a property of `results[name]` when
      `name` has no result. */
  function ReadOfUndefined(property: string): Thrown {
    PlainError("Cannot read property '" + property + "' of undefined")
  }

  /** defaultErrorHandler, as a function: the error of the first policy, in
      listed order, that threw. */
  function FirstListedError(ran: seq<string>, results: Results): Option<Thrown>
    decreases |ran|
  {
    if |ran| == 0 then None
    else if ran[0] !in results then Some(ReadOfUndefined("err"))
    else if results[ran[0]].Throws? then Some(results[ran[0]].err)
    else FirstListedError(ran[1..], results)
  }

  /** defaultErrorHandler: the index loop that throws the error of the first
      listed policy whose status is 'error'. */
  method DefaultErrorHandler(ran: seq<string>, results: Results) returns (thrown: Option<Thrown>)
    ensures thrown == FirstListedError(ran, results)
  {
    var i := 0;
    while i < |ran|
      invariant 0 <= i <= |ran|
      invariant FirstListedError(ran[i..], results) == FirstListedError(ran, results)
    {
      assert ran[i..][1..] == ran[i + 1..];
      var result := ran[i];
      if result !in results {
        return Some(ReadOfUndefined("err"));
      }
      if results[result].Throws? {
        return Some(results[result].err);
      }
      i := i + 1;
    }
    return None;
  }

  /** With every listed policy registered, the default handler throws the
      error of a policy exactly when every policy listed before it
      succeeded, and throws nothing exactly when none failed: the
      precedence is the listed order, whatever order they settled in. */
  lemma {:induction false} FirstListedErrorWins(ran: seq<string>, results: Results)
    requires forall n :: n in ran ==> n in results
    ensures FirstListedError(ran, results).None? <==> forall i :: 0 <= i < |ran| ==> results[ran[i]].Returns?
    ensures forall i :: 0 <= i < |ran| && results[ran[i]].Throws? &&
                        (forall j :: 0 <= j < i ==> results[ran[j]].Returns?) ==>
                        FirstListedError(ran, results) == Some(results[ran[i]].err)
    decreases |ran|
  {
    if |ran| > 0 {
      FirstListedErrorWins(ran[1..], results);
      forall i | 0 < i < |ran| && results[ran[i]].Throws? && (forall j :: 0 <= j < i ==> results[ran[j]].Returns?)
        ensures FirstListedError(ran, results) == Some(results[ran[i]].err)
      {
        assert results[ran[0]].Returns?;
        assert ran[1..][i - 1] == ran[i];
        forall j | 0 <= j < i - 1 ensures results[ran[1..][j]].Returns? {
          assert ran[1..][j] == ran[j + 1];
        }
      }
      if forall i :: 0 <= i < |ran| ==> results[ran[i]].Returns? {
        forall i | 0 <= i < |ran| - 1 ensures results[ran[1..][i]].Returns? {
          assert ran[1..][i] == ran[i + 1];
        }
      }
      if results[ran[0]].Returns? && forall i :: 0 <= i < |ran| - 1 ==> results[ran[1..][i]].Returns? {
        forall i | 0 < i < |ran| ensures results[ran[i]].Returns? {
          assert ran[i] == ran[1..][i - 1];
        }
      }
    }
  }

  /** `_.every(ran, (n) => results[n].status === 'error')`, which stops at the
      first policy that did not fail and fails on a name without a result. */
  function EveryFailed(ran: seq<string>, results: Results): Result<bool, Thrown>
    decreases |ran|
  {
    if |ran| == 0 then Ok(true)
    else if ran[0] !in results then Err(ReadOfUndefined("status"))
    else if results[ran[0]].Returns? then Ok(false)
    else EveryFailed(ran[1..], results)
  }

  /** `_.find(results, { status: 'error' })`. The results object has its
      keys in listed order (lodash `pick` walks the listed names), so this
      is the first listed policy that has a result and failed. */
  function FindFailed(ran: seq<string>, results: Results): Option<Thrown>
    decreases |ran|
  {
    if |ran| == 0 then None
    else if ran[0] in results && results[ran[0]].Throws? then Some(results[ran[0]].err)
    else FindFailed(ran[1..], results)
  }

  /** The constituent `n` has a result and it is a failure. */
  predicate FailedIn(results: Results, n: string) {
    n in results && results[n].Throws?
  }

  /** What `_.every` over the listed names yields: a TypeError only when a
      name without a result is reached, false only when a listed policy
      succeeded, true exactly when every listed policy failed. */
  lemma {:induction false} EveryFailedCases(ran: seq<string>, results: Results)
    ensures EveryFailed(ran, results).Err? ==>
      EveryFailed(ran, results).error == ReadOfUndefined("status") && exists i :: 0 <= i < |ran| && ran[i] !in results
    ensures EveryFailed(ran, results) == Ok(false) ==>
      exists i :: 0 <= i < |ran| && ran[i] in results && results[ran[i]].Returns?
    ensures EveryFailed(ran, results) == Ok(true) <==> forall i :: 0 <= i < |ran| ==> FailedIn(results, ran[i])
    decreases |ran|
  {
    if |ran| > 0 && FailedIn(results, ran[0]) {
      var rest := ran[1..];
      EveryFailedCases(rest, results);
      assert forall i :: 0 <= i < |rest| ==> rest[i] == ran[i + 1];
      if EveryFailed(rest, results).Err? {
        var i :| 0 <= i < |rest| && rest[i] !in results;
        assert ran[i + 1] !in results;
      } else if EveryFailed(rest, results) == Ok(false) {
        var i :| 0 <= i < |rest| && rest[i] in results && results[rest[i]].Returns?;
        assert ran[i + 1] == rest[i];
      }
      if forall i :: 0 <= i < |rest| ==> FailedIn(results, rest[i]) {
        forall i | 0 <= i < |ran| ensures FailedIn(results, ran[i]) {
          if i > 0 { assert ran[i] == rest[i - 1]; }
        }
      }
    }
  }

  /** The error handler orPolicy supplies: return if some policy did not
      fail, otherwise throw the error of the left-most failed one. It
      continues only when some listed policy succeeded; it throws only when a
      listed name has no result or every listed policy failed, and then it
      throws the first listed policy's error (a TypeError when none is
      listed). */
  function OrReduce(ran: seq<string>, results: Results): (r: Option<Thrown>)
    ensures r.None? ==> exists i :: 0 <= i < |ran| && ran[i] in results && results[ran[i]].Returns?
    ensures r.Some? ==>
      (exists i :: 0 <= i < |ran| && ran[i] !in results) || forall i :: 0 <= i < |ran| ==> FailedIn(results, ran[i])
    ensures (forall i :: 0 <= i < |ran| ==> FailedIn(results, ran[i])) ==>
      r == if |ran| == 0 then Some(ReadOfUndefined("err")) else Some(results[ran[0]].err)
  {
    EveryFailedCases(ran, results);
    match EveryFailed(ran, results)
    case Err(e) => Some(e)
    case Ok(false) => None
    case Ok(true) =>
      match FindFailed(ran, results)
      case None => Some(ReadOfUndefined("err"))
      case Some(e) => Some(e)
  }

  /** With every listed policy registered, orPolicy continues exactly when
      at least one constituent succeeded; otherwise it throws the error of
      the first listed one. An empty orPolicy always throws. */
  lemma {:induction false} OrSucceedsIffOneSucceeds(ran: seq<string>, results: Results)
    requires forall n :: n in ran ==> n in results
    ensures OrReduce(ran, results).None? <==> exists i :: 0 <= i < |ran| && results[ran[i]].Returns?
    ensures |ran| > 0 && (forall i :: 0 <= i < |ran| ==> results[ran[i]].Throws?) ==>
            OrReduce(ran, results) == Some(results[ran[0]].err)
    ensures |ran| == 0 ==> OrReduce(ran, results) == Some(ReadOfUndefined("err"))
  {
    EveryFailedMeans(ran, results);
  }

  lemma {:induction false} EveryFailedMeans(ran: seq<string>, results: Results)
    requires forall n :: n in ran ==> n in results
    ensures EveryFailed(ran, results) == Ok(forall i :: 0 <= i < |ran| ==> results[ran[i]].Throws?)
    decreases |ran|
  {
    if |ran| > 0 && results[ran[0]].Throws? {
      EveryFailedMeans(ran[1..], results);
      assert forall i :: 0 < i < |ran| ==> ran[i] == ran[1..][i - 1];
      assert forall i :: 0 <= i < |ran| - 1 ==> ran[1..][i] == ran[i + 1];
    }
  }

  /** The reducer an aggregate's error handler applies. */
  function Reduce(world: World, handler: ErrorHandler, ran: seq<string>, results: Results): Option<Thrown> {
    match handler
    case DefaultHandler => FirstListedError(ran, results)
    case OrHandler => OrReduce(ran, results)
    case CustomHandler(id) => world.custom(id, ran, results)
  }

  /** The results an aggregate collects: one per listed name that is
      registered when the aggregate runs (`_.pick(data.rawPolicies, names)`). */
  function AggregateResults(world: World, rawPolicies: map<string, Policy>, runs: seq<string>): (r: Results)
    ensures forall n :: n in r <==> n in runs && n in rawPolicies
    ensures forall n :: n in r ==> r[n] == world.behaviour(rawPolicies[n].id)
  {
    map n | n in runs && n in rawPolicies :: world.behaviour(rawPolicies[n].id)
  }

  /** aggregatePolicy: run every constituent, then the error handler; what
      the constituents returned is discarded, so the aggregate either
      continues or throws what the handler threw. */
  function RunAggregate(world: World, rawPolicies: map<string, Policy>, runs: seq<string>, handler: ErrorHandler)
    : (r: Settled)
    ensures r.Returns? ==> r.reply == Continue
    ensures r.Throws? <==> Reduce(world, handler, runs, AggregateResults(world, rawPolicies, runs)).Some?
    ensures r.Throws? ==> Reduce(world, handler, runs, AggregateResults(world, rawPolicies, runs)) == Some(r.err)
  {
    match Reduce(world, handler, runs, AggregateResults(world, rawPolicies, runs))
    case None => Returns(Continue)
    case Some(e) => Throws(e)
  }

  /** Results as they are gathered: each constituent's result is recorded
      under its name when it settles, in whatever order they settle. */
  function Gather(settled: seq<(string, Settled)>): Results
    decreases |settled|
  {
    if |settled| == 0 then map[]
    else
      var last := settled[|settled| - 1];
      Gather(settled[..|settled| - 1])[last.0 := last.1]
  }

  ghost predicate DistinctNames(settled: seq<(string, Settled)>) {
    forall i, j :: 0 <= i < j < |settled| ==> settled[i].0 != settled[j].0
  }

  lemma {:induction false} GatherHolds(settled: seq<(string, Settled)>)
    requires DistinctNames(settled)
    ensures forall n :: n in Gather(settled) ==> exists i :: 0 <= i < |settled| && settled[i].0 == n
    ensures forall i :: 0 <= i < |settled| ==> settled[i].0 in Gather(settled) && Gather(settled)[settled[i].0] == settled[i].1
    decreases |settled|
  {
    if |settled| > 0 {
      var prefix := settled[..|settled| - 1];
      GatherHolds(prefix);
      forall i | 0 <= i < |settled| - 1 ensures settled[i] == prefix[i] && settled[i].0 != settled[|settled| - 1].0 { }
    }
  }

  /** Gathering the constituents' results as they settle, in any order, each
      registered listed constituent once, yields exactly the results the
      aggregate hands its handler (`_.zipObject` pairs each name with the
      value in its slot of `Promise.all`). */
  lemma GatheredAreAggregateResults(world: World, rawPolicies: map<string, Policy>, runs: seq<string>,
                                    settled: seq<(string, Settled)>)
    requires DistinctNames(settled)
    requires forall i :: 0 <= i < |settled| ==>
      settled[i].0 in runs && settled[i].0 in rawPolicies && settled[i].1 == world.behaviour(rawPolicies[settled[i].0].id)
    requires forall n :: n in runs && n in rawPolicies ==> n in SettledNames(settled)
    ensures Gather(settled) == AggregateResults(world, rawPolicies, runs)
  {
    GatherHolds(settled);
  }

  /** The names that have settled. */
  function SettledNames(settled: seq<(string, Settled)>): set<string> {
    set i | 0 <= i < |settled| :: settled[i].0
  }

  /** The order in which the constituents settle does not change the
      results the handler sees (Promise.all keeps every value in its slot). */
  lemma SettleOrderIrrelevant(inOneOrder: seq<(string, Settled)>, inAnother: seq<(string, Settled)>)
    requires DistinctNames(inOneOrder) && DistinctNames(inAnother)
    requires multiset(inOneOrder) == multiset(inAnother)
    ensures Gather(inOneOrder) == Gather(inAnother)
  {
    GatherHolds(inOneOrder);
    GatherHolds(inAnother);
    forall n | n in Gather(inOneOrder) ensures n in Gather(inAnother) && Gather(inOneOrder)[n] == Gather(inAnother)[n] {
      var i :| 0 <= i < |inOneOrder| && inOneOrder[i].0 == n;
      assert inOneOrder[i] in multiset(inAnother);
      var j :| 0 <= j < |inAnother| && inAnother[j] == inOneOrder[i];
    }
    forall n | n in Gather(inAnother) ensures n in Gather(inOneOrder) {
      var j :| 0 <= j < |inAnother| && inAnother[j].0 == n;
      assert inAnother[j] in multiset(inOneOrder);
      var i :| 0 <= i < |inOneOrder| && inOneOrder[i] == inAnother[j];
    }
  }

  /** parallel(name1, ..., nameN[, handler]): at least one argument, no name
      listed twice; the aggregate's `runs` is the listed names, and its
      handler the trailing function if one was passed, else the default. */
  function Parallel(policyNames: seq<string>, trailing: Option<ErrorHandler>): (r: Result<Callable, Thrown>)
    ensures r.Ok? <==> (|policyNames| > 0 || trailing.Some?) && NoDup(policyNames)
    ensures r.Ok? ==> r.value.Aggregate? && r.value.runs == policyNames
    ensures r.Ok? && trailing.None? ==> r.value.handler == DefaultHandler
    ensures r.Ok? && trailing.Some? ==> r.value.handler == trailing.value
  {
    ElementsCard(policyNames);
    if |policyNames| == 0 && trailing.None? then
      Err(PlainError("Requires at least one argument."))
    else if |Elements(policyNames)| != |policyNames| then
      Err(PlainError("Listed policies must be unique."))
    else
      Ok(Aggregate(policyNames, match trailing case Some(h) => h case None => DefaultHandler))
  }

  /** orPolicy(name1, ..., nameN): parallel with the or-reducer appended. */
  function OrPolicy(policyNames: seq<string>): (r: Result<Callable, Thrown>)
    ensures r.Ok? <==> NoDup(policyNames)
    ensures r.Ok? ==> r.value == Aggregate(policyNames, OrHandler)
    ensures r.Err? ==> r.error == PlainError("Listed policies must be unique.")
  {
    Parallel(policyNames, Some(OrHandler))
  }
}
