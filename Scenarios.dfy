/** Concrete situations exercised by the repository's tests (test/index.js),
    stated over the model: for every behaviour of the policies that the
    test's fixtures describe, the stage ends as the test expects. */
module Scenarios {
  import opened Outcomes
  import opened ApplyPoints
  import opened Registry
  import opened Aggregation
  import opened Resolution
  import opened Execution

  /** The registered policy `id` settles as `s` for the request at hand. */
  predicate SettlesAs(world: World, id: PolicyId, s: Settled) {
    world.behaviour(id) == s
  }

  /** 'fails' before 'passes': the failure stops the stage as a 403 and
      'passes' is never called; in the other order both are called and the
      stage still ends with the same 403. */
  lemma {:induction false} FailingPolicyIsForbidden(world: World, rawPolicies: map<string, Policy>,
                                                     fails: PolicyId, passes: PolicyId, m: string)
    requires SettlesAs(world, fails, Throws(PlainError(m)))
    requires SettlesAs(world, passes, Returns(Continue))
    ensures Run(world, rawPolicies, [Opaque(fails), Opaque(passes)]) == Raised(BoomError(Forbidden, m))
    ensures Invoked(world, rawPolicies, [Opaque(fails), Opaque(passes)]) == 1
    ensures Run(world, rawPolicies, [Opaque(passes), Opaque(fails)]) == Raised(BoomError(Forbidden, m))
    ensures Invoked(world, rawPolicies, [Opaque(passes), Opaque(fails)]) == 2
  {
    FirstStopDecides(world, rawPolicies, [Opaque(fails), Opaque(passes)], 0);
    FirstStopDecides(world, rawPolicies, [Opaque(passes), Opaque(fails)], 1);
  }

  /** A Boom error a policy throws (a 404 from Boom.notFound, say) keeps
      its status, and a thrown value that is not an Error becomes a 403
      carrying it. */
  lemma {:induction false} ThrownValuesNegotiated(world: World, rawPolicies: map<string, Policy>,
                                                   notFound: PolicyId, strange: PolicyId, m: string)
    requires SettlesAs(world, notFound, Throws(BoomError(404, m)))
    requires SettlesAs(world, strange, Throws(NonError("This is a weird thing to throw")))
    ensures Run(world, rawPolicies, [Opaque(notFound)]) == Raised(BoomError(404, m))
    ensures Run(world, rawPolicies, [Opaque(strange)]) ==
            Raised(BoomError(Forbidden, "This is a weird thing to throw"))
  {
    FirstStopDecides(world, rawPolicies, [Opaque(notFound)], 0);
    FirstStopDecides(world, rawPolicies, [Opaque(strange)], 0);
  }

  /** A policy that answers with a response (the redirect test's 302) ends
      the stage with that response; nothing after it runs. */
  lemma {:induction false} ReplyEndsStage(world: World, rawPolicies: map<string, Policy>,
                                          redirects: PolicyId, later: seq<Callable>)
    requires SettlesAs(world, redirects, Returns(Respond(302)))
    ensures Run(world, rawPolicies, [Opaque(redirects)] + later) == Returned(Respond(302))
    ensures Invoked(world, rawPolicies, [Opaque(redirects)] + later) == 1
  {
    FirstStopDecides(world, rawPolicies, [Opaque(redirects)] + later, 0);
  }

  /** parallel('passes', 'timedCustomMessageLate', 'timedCustomMessageEarly'):
      both timed policies fail, the early one first, and the default handler
      throws the error of the one listed first, 'custom late', as a 403. */
  lemma {:induction false} ParallelDefaultHandlerListedOrder(world: World, rawPolicies: map<string, Policy>,
                                                             passes: string, late: string, early: string)
    requires passes in rawPolicies && late in rawPolicies && early in rawPolicies
    requires passes != late && passes != early && late != early
    requires SettlesAs(world, rawPolicies[passes].id, Returns(Continue))
    requires SettlesAs(world, rawPolicies[late].id, Throws(PlainError("custom late")))
    requires SettlesAs(world, rawPolicies[early].id, Throws(PlainError("custom early")))
    ensures var agg := Parallel([passes, late, early], None);
      && agg.Ok?
      && Run(world, rawPolicies, [agg.value]) == Raised(BoomError(Forbidden, "custom late"))
  {
    var ran := [passes, late, early];
    var results := AggregateResults(world, rawPolicies, ran);
    FirstListedErrorWins(ran, results);
    assert results[ran[0]].Returns? && results[ran[1]] == Throws(PlainError("custom late"));
    var agg := Parallel(ran, None);
    assert agg.value == Aggregate(ran, DefaultHandler);
    FirstStopDecides(world, rawPolicies, [agg.value], 0);
  }

  /** parallel(notFound, passes) where notFound throws a Boom 404: the
      aggregate throws that 404 unchanged, and negotiateError keeps it. */
  lemma {:induction false} ParallelKeepsBoomError(world: World, rawPolicies: map<string, Policy>,
                                                   notFound: string, passes: string, m: string)
    requires notFound in rawPolicies && passes in rawPolicies && notFound != passes
    requires SettlesAs(world, rawPolicies[notFound].id, Throws(BoomError(404, m)))
    requires SettlesAs(world, rawPolicies[passes].id, Returns(Continue))
    ensures Run(world, rawPolicies, [Aggregate([notFound, passes], DefaultHandler)]) == Raised(BoomError(404, m))
  {
    var ran := [notFound, passes];
    FirstListedErrorWins(ran, AggregateResults(world, rawPolicies, ran));
    FirstStopDecides(world, rawPolicies, [Aggregate(ran, DefaultHandler)], 0);
  }

  /** What a policy written in the callback style `(request, reply,
      callback)` throws when the engine calls it with `(request, h)`:
      `callback` is undefined, so calling it is a TypeError. */
  const CallbackNotAFunction: Thrown := PlainError("callback is not a function")

  /** test/policies/customError.js as written: alone or inside a parallel
      aggregate, the stage ends with a 403, never the 404 the policy meant
      to pass to its callback. */
  lemma {:induction false} CallbackStylePolicyForbidden(world: World, rawPolicies: map<string, Policy>,
                                                         custom: string, passes: string)
    requires custom in rawPolicies && passes in rawPolicies && custom != passes
    requires SettlesAs(world, rawPolicies[custom].id, Throws(CallbackNotAFunction))
    requires SettlesAs(world, rawPolicies[passes].id, Returns(Continue))
    ensures Run(world, rawPolicies, [Opaque(rawPolicies[custom].id)]) ==
            Raised(BoomError(Forbidden, "callback is not a function"))
    ensures Run(world, rawPolicies, [Aggregate([custom, passes], DefaultHandler)]) ==
            Raised(BoomError(Forbidden, "callback is not a function"))
    ensures Run(world, rawPolicies, [Opaque(rawPolicies[custom].id)]).err.status != 404
  {
    var ran := [custom, passes];
    FirstListedErrorWins(ran, AggregateResults(world, rawPolicies, ran));
    FirstStopDecides(world, rawPolicies, [Opaque(rawPolicies[custom].id)], 0);
    FirstStopDecides(world, rawPolicies, [Aggregate(ran, DefaultHandler)], 0);
  }

  /** orPolicy over two registered policies: the stage continues when
      either succeeds, and when both fail it is a 403 carrying the first
      listed failure. */
  lemma {:induction false} OrPolicyCases(world: World, rawPolicies: map<string, Policy>, a: string, b: string)
    requires a in rawPolicies && b in rawPolicies && a != b
    ensures var either := OrPolicy([a, b]);
      && either.Ok?
      && (Run(world, rawPolicies, [either.value]) == Returned(Continue) <==>
          world.behaviour(rawPolicies[a].id).Returns? || world.behaviour(rawPolicies[b].id).Returns?)
      && (world.behaviour(rawPolicies[a].id).Throws? && world.behaviour(rawPolicies[b].id).Throws? ==>
          Run(world, rawPolicies, [either.value]) ==
          Raised(NegotiateError(world.behaviour(rawPolicies[a].id).err)))
  {
    var ran := [a, b];
    var results := AggregateResults(world, rawPolicies, ran);
    OrSucceedsIffOneSucceeds(ran, results);
    assert results[ran[0]] == world.behaviour(rawPolicies[a].id);
    assert results[ran[1]] == world.behaviour(rawPolicies[b].id);
    var c := Aggregate(ran, OrHandler);
    AllContinue(world, rawPolicies, [c]);
    if !Continues(world, rawPolicies, c) {
      FirstStopDecides(world, rawPolicies, [c], 0);
    }
  }

  /** A route declaring `[['A', 'B'], 'C']` with A and B registered at
      onPostHandler and C at onPreHandler runs C alone before the handler
      and the parallel aggregate of A and B after it. */
  lemma StagesSplitDeclaration(names: seq<string>, rawPolicies: map<string, Policy>, buckets: Buckets,
                               defaultApplyPoint: ApplyPoint, a: string, b: string, c: string)
    requires Consistent(names, rawPolicies, buckets)
    requires a != b
    requires a in BucketAt(buckets, OnPostHandler) && b in BucketAt(buckets, OnPostHandler)
    requires c in BucketAt(buckets, OnPreHandler)
    ensures Resolve(names, buckets, defaultApplyPoint, OnPreHandler, [Group([a, b]), ByName(c)]) ==
            Ok([Opaque(rawPolicies[c].id)])
    ensures Resolve(names, buckets, defaultApplyPoint, OnPostHandler, [Group([a, b]), ByName(c)]) ==
            Ok([Aggregate([a, b], DefaultHandler)])
  {
    DetermineInConsistentRegistry(names, rawPolicies, buckets, [a, b], OnPostHandler);
    assert DetermineAggregateApplyPoint(names, buckets, [a, b]) == Ok(OnPostHandler);
    NameEntryAtItsBucket(names, rawPolicies, buckets, defaultApplyPoint, c, OnPreHandler);
    NameEntryAtItsBucket(names, rawPolicies, buckets, defaultApplyPoint, c, OnPostHandler);
    assert c in names && c !in BucketAt(buckets, OnPostHandler);
    PreHandlerPart(names, buckets, defaultApplyPoint, a, b, c);
    PostHandlerPart(names, buckets, defaultApplyPoint, a, b, c);
  }

  lemma PreHandlerPart(names: seq<string>, buckets: Buckets, defaultApplyPoint: ApplyPoint,
                       a: string, b: string, c: string)
    requires DetermineAggregateApplyPoint(names, buckets, [a, b]) == Ok(OnPostHandler)
    requires c in names && c in BucketAt(buckets, OnPreHandler)
    ensures Resolve(names, buckets, defaultApplyPoint, OnPreHandler, [Group([a, b]), ByName(c)]) ==
            Ok([Opaque(BucketAt(buckets, OnPreHandler)[c].id)])
  {
    var cs := Contributions(names, buckets, defaultApplyPoint, OnPreHandler, [Group([a, b]), ByName(c)]);
    var run := [Opaque(BucketAt(buckets, OnPreHandler)[c].id)];
    assert cs == [Ok([]), Ok(run)];
    ChainOfTwo(cs[0], cs[1]);
    assert [] + run == run;
  }

  lemma PostHandlerPart(names: seq<string>, buckets: Buckets, defaultApplyPoint: ApplyPoint,
                        a: string, b: string, c: string)
    requires DetermineAggregateApplyPoint(names, buckets, [a, b]) == Ok(OnPostHandler)
    requires c in names && c !in BucketAt(buckets, OnPostHandler)
    ensures Resolve(names, buckets, defaultApplyPoint, OnPostHandler, [Group([a, b]), ByName(c)]) ==
            Ok([Aggregate([a, b], DefaultHandler)])
  {
    var cs := Contributions(names, buckets, defaultApplyPoint, OnPostHandler, [Group([a, b]), ByName(c)]);
    var run := [Aggregate([a, b], DefaultHandler)];
    assert cs == [Ok(run), Ok([])];
    ChainOfTwo(cs[0], cs[1]);
    assert run + [] == run;
  }

  /** A misspelled policy name fails the route at every apply point with a
      501, before any policy function is called. */
  lemma {:induction false} MisspelledPolicyIsNotImplemented(world: World, names: seq<string>,
                                                            rawPolicies: map<string, Policy>, buckets: Buckets,
                                                            defaultApplyPoint: ApplyPoint, p: ApplyPoint, name: string)
    requires Consistent(names, rawPolicies, buckets)
    requires name !in rawPolicies
    ensures Handle(world, names, rawPolicies, buckets, defaultApplyPoint, p, Some([ByName(name)])) ==
            Raised(BoomError(NotImplemented, "Missing policy: " + name))
  {
    NameEntryAtItsBucket(names, rawPolicies, buckets, defaultApplyPoint, name, p);
    var cs := Contributions(names, buckets, defaultApplyPoint, p, [ByName(name)]);
    assert cs == [Err(MissingPolicy(name))];
    ChainOfOne(cs[0]);
  }

  /** A policy added programmatically is unknown before `addPolicy`, known
      after it, and runs on a route that names it; adding it again fails. */
  method ProgrammaticallyAddedPolicy(world: World, id: PolicyId)
    returns (known: bool, r: StageOutcome, invoked: nat, again: Option<Thrown>)
    requires SettlesAs(world, id, Returns(Continue))
    ensures known
    ensures r == Returned(Continue) && invoked == 1
    ensures again == Some(PlainError("Trying to add a duplicate policy: " + "injectedPolicy"))
  {
    var registry := new PolicyRegistry();
    assert !registry.HasPolicy("injectedPolicy");
    var options := Options(OnPreHandler, false);
    var policy := Policy(id, Undefined);
    var err, ext := registry.AddPolicy("injectedPolicy", policy, options);
    known := registry.HasPolicy("injectedPolicy");
    assert registry.names == ["injectedPolicy"];
    assert BucketAt(registry.buckets, OnPreHandler) == map["injectedPolicy" := policy];
    var cs := Contributions(registry.names, registry.buckets, OnPreHandler, OnPreHandler, [ByName("injectedPolicy")]);
    assert cs == [Ok([Opaque(id)])];
    ChainOfOne(cs[0]);
    FirstRunContinues(world, registry.rawPolicies, id);
    r, invoked := HandleStage(registry.names, registry.rawPolicies, registry.buckets, world, OnPreHandler, OnPreHandler, Some([ByName("injectedPolicy")]));
    again, ext := registry.AddPolicy("injectedPolicy", policy, options);
  }

  lemma FirstRunContinues(world: World, rawPolicies: map<string, Policy>, id: PolicyId)
    requires SettlesAs(world, id, Returns(Continue))
    ensures Run(world, rawPolicies, [Opaque(id)]) == Returned(Continue)
    ensures Invoked(world, rawPolicies, [Opaque(id)]) == 1
  {
    AllContinue(world, rawPolicies, [Opaque(id)]);
  }
}
