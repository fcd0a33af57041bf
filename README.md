# mrhorse policy engine, modelled in Dafny

mrhorse is a hapi plugin that runs *policies* (async functions that let a
request continue, answer it, or throw) at six points of the request
lifecycle. This project models the engine in `lib/index.js` and proves
properties of it:

- **Registry.** `Registry.dfy` models the registry of named policies:
  - the class `PolicyRegistry` holds `names`, `rawPolicies`, one bucket per
    apply point and the set of apply points whose handler is wired;
  - it models `addPolicy`, `hasPolicy`, `reset`, and the default-apply-point
    and `watchApplyPoints` parts of `register`;
  - `DetermineAggregateApplyPoint` infers the apply point of a group of
    policies.
- **Aggregation.** `Aggregation.dfy` models `parallel` and `orPolicy`:
  - an aggregate runs every listed policy and gathers the results by name;
  - then it asks its error handler whether to throw;
  - the default handler and the or-handler are modelled exactly;
  - a custom handler is an oracle.
- **Resolution.** `Resolution.dfy` models the `reduce` inside each generated
  handler. It turns a route's `policies` list into the ordered list of
  policy functions for one apply point, or into the error it throws.
- **Execution.** `Execution.dfy` models `runPolicies` and the handler
  itself:
  - policies run in order;
  - the first one that does not continue ends the stage;
  - anything it throws passes through `negotiateError`.
- **Outcomes and apply points.** `Outcomes.dfy` and `ApplyPoints.dfy` hold
  the values that flow through the engine and the six apply points.
- **Scenarios.** `Scenarios.dfy` restates several of the repository's tests
  (`test/index.js`) as lemmas over the model.

A registered policy's body is opaque. `World.behaviour` gives how each one
settles for the request at hand: it returns continue, returns a response,
or throws. `World.custom` gives what each caller-supplied error handler
throws. Both are parameters, so every property holds for every such
behaviour that is fixed per policy for the request (see "## Left out").

The stateful parts of the source are a `class`:
- the `data` registry, whose fields `addPolicy`, `reset` and the
  `watchApplyPoints` loop update in place;
- its methods are proved against pure functions and the invariant `Valid`.

The loops of the source are methods proved equal to their specification
functions:
- `runPolicies`;
- the default error handler;
- the `reduce`;
- the `watchApplyPoints` loop.

## Model

| member | source | states |
|---|---|---|
| Outcomes.NegotiateError | lib/index.js:61-73 | every thrown value leaves as a Boom error carrying the thrown reason (an empty Error message is kept as empty, where Boom would substitute its status text); a Boom error is kept as is (its status too), any other value gets status 403 |
| Outcomes.NegotiateErrorIdempotent | lib/index.js:61-73 | negotiating an already negotiated error changes nothing |
| ApplyPoints.Parse | lib/index.js:9-19 | a string is accepted exactly when it is the name of one of the six apply points, and then it parses to that point |
| ApplyPoints.AllApplyPointsComplete | lib/index.js:9-14 | the lifecycle list holds every apply point, each once |
| ApplyPoints.ParseName | lib/index.js:9-19 | parsing an apply point's name gives the point back |
| ApplyPoints.HasValidApplyPoint | lib/index.js:16-19 | valid exactly when the tag is absent or falsy, or names one of the six points |
| ApplyPoints.TaggedApplyPoint | lib/index.js:186-187 | a truthy valid tag denotes the point whose name it is |
| Registry.EmptyBuckets | lib/index.js:54-58 | a bucket exists for every apply point and each is empty |
| Registry.FirstHolding | lib/index.js:30-39 | the index found is the first apply point, in lifecycle order, whose bucket holds the name; none found means no bucket holds it |
| Registry.IntersectionCoversList | lib/index.js:42-43 | the lodash intersection check passes exactly when the list has no duplicates and all its names are in the collection |
| Registry.DetermineAggregateApplyPoint | lib/index.js:22-46 | an empty list is rejected with "Requires non-empty array of policy names."; a list with a duplicate or an unloaded name with "Requires loaded policy names."; a first name in no bucket with "Policies must be in a valid applyPoint."; a name missing from the first name's bucket with "Aggregate policies must be from same applyPoint."; a success means a non-empty, duplicate-free list of registered names, all in the bucket of the answer, which is the first apply point holding the first name |
| Registry.DetermineInConsistentRegistry | lib/index.js:22-46 | in a consistent registry the inference answers `p` exactly when the list is non-empty, duplicate-free and entirely in `p`'s bucket |
| Registry.DetermineStableUnderGrowth | lib/index.js:21-22 | registering more policies does not change an inference that succeeded, so memoizing it until `reset` is sound |
| Registry.ConfiguredDefaultApplyPoint | lib/index.js:273-275 | a falsy option defaults to onPreHandler; a truthy one is accepted exactly when it names an apply point, and otherwise fails with "Specified invalid defaultApplyPoint: " and the value |
| Registry.StoredApplyPoint | lib/index.js:186-187 | a policy is stored under its own truthy apply point, else under the default |
| Registry.NewlyWiredOnce | lib/index.js:293-299 | wiring a list of apply points wires each unwired listed point exactly once and nothing else |
| Registry.AddKeepsConsistent | lib/index.js:185-192 | storing a new policy under the point its tag allows keeps names, raw policies and buckets consistent |
| Registry.PolicyRegistry.constructor | lib/index.js:48-58 | the registry starts with no names, no policies, empty buckets and nothing wired |
| Registry.PolicyRegistry.HasPolicy | lib/index.js:244-247 | a name is known exactly when it has a raw policy, and exactly when some bucket holds it |
| Registry.PolicyRegistry.AddPolicy | lib/index.js:169-200 | a duplicate is ignored or rejected with "Trying to add a duplicate policy: "; an invalid apply point is rejected; a defined falsy apply point is silently skipped; otherwise the policy is appended to names, stored in rawPolicies and in its bucket, and its handler is wired on first use, with the registry invariant kept |
| Registry.PolicyRegistry.Reset | lib/index.js:250-266 | every list, map, bucket and wiring flag is emptied and no policy is known |
| Registry.PolicyRegistry.WatchApplyPoints | lib/index.js:290-300 | each listed apply point not yet wired gets its handler once, in list order; policies are untouched and the invariant is kept |
| Aggregation.DefaultErrorHandler | lib/index.js:313-325 | the loop throws the error of the first listed policy that failed, the TypeError of a name without a result, or nothing |
| Aggregation.FirstListedErrorWins | lib/index.js:311-325 | with every listed policy registered, nothing is thrown exactly when none failed, and the error thrown is that of a failed policy all of whose predecessors succeeded |
| Aggregation.OrSucceedsIffOneSucceeds | lib/index.js:384-397 | orPolicy's handler throws nothing exactly when at least one listed policy succeeded; when all failed it throws the first listed error; with no names it throws a TypeError |
| Aggregation.EveryFailedMeans | lib/index.js:387 | the `_.every` test is true exactly when every listed policy failed |
| Aggregation.EveryFailedCases | lib/index.js:387 | for any results, the `_.every` test throws the TypeError only when it reaches a name without a result, is false only when a listed policy succeeded, and is true exactly when every listed policy failed |
| Aggregation.OrReduce | lib/index.js:384-397 | orPolicy's handler throws nothing only when some listed policy succeeded; it throws only when a listed name has no result or every listed policy failed, and when all failed it throws the first listed policy's error (the `err` TypeError for an empty list) |
| Aggregation.GatheredAreAggregateResults | lib/index.js:359-364 | whatever order the constituents settle in, pairing each registered listed name with its own result gives the results the handler sees: one per listed name that is registered, holding how that policy settled |
| Aggregation.RunAggregate | lib/index.js:357-369 | an aggregate never passes on a constituent's reply: it continues, or it throws exactly the error its handler throws for the gathered results |
| Aggregation.GatherHolds | lib/index.js:364 | gathering settled results by name keeps every policy's own result |
| Aggregation.SettleOrderIrrelevant | lib/index.js:359-364 | the results do not depend on the order in which the constituents settle |
| Aggregation.Parallel | lib/index.js:305-376 | accepted exactly when there is at least one argument and no name is listed twice; `runs` is the listed names and the handler the trailing one or the default |
| Aggregation.OrPolicy | lib/index.js:379-401 | accepted exactly when no name is listed twice, giving an aggregate of those names with the or-handler; otherwise it fails with "Listed policies must be unique." |
| Resolution.InlineApplyPoint | lib/index.js:134-149 | a function entry runs at its own truthy apply point, which must be valid or the 500 "Trying to use incorrect applyPoint for the dynamic policy: " error is thrown; else at its constituents' point if it is an aggregate; else at the default |
| Resolution.Contribution | lib/index.js:106-162 | one entry adds at most one policy function: a name must be loaded (else the 501) and is added where its bucket is; an array throws exactly the inference's error ("Requires loaded policy names." and the rest) and otherwise becomes parallel of its names at their shared apply point; a function throws exactly when its apply point is invalid (the 500 "Trying to use incorrect applyPoint for the dynamic policy: ") or cannot be inferred, with that error, and otherwise is added as it is at its own apply point; null adds nothing; any other value is the 500 "Policy not specified by name or by function." |
| Resolution.ResolveStage | lib/index.js:106-162 | the reduce loop returns the resolved list of the whole declaration, or its first error |
| Resolution.ResolveAppend | lib/index.js:106-162 | resolving a concatenation resolves the two halves in order; an error in the first half wins |
| Resolution.ResolveStep | lib/index.js:106-162 | one more entry appends its contribution or ends with its error |
| Resolution.ResolvedEntriesAllResolve | lib/index.js:122-127 | in a declaration that resolves, every entry resolves and every name it lists is registered |
| Resolution.FirstFailingEntryDecides | lib/index.js:106-162 | the error thrown is that of the first entry that cannot be resolved |
| Resolution.ContributionAtOneApplyPoint | lib/index.js:106-162 | whether an entry throws does not depend on the apply point, and an entry is run at no more than one apply point |
| Resolution.ResolveErrorAtEveryApplyPoint | lib/index.js:106-162 | a declaration that fails to resolve at one apply point fails with the same error at every apply point |
| Resolution.ContributionErrorSame | lib/index.js:106-162 | an entry that throws at two apply points throws the same error at both |
| Resolution.NameEntryAtItsBucket | lib/index.js:122-133 | a name entry throws the 501 "Missing policy: " error for an unregistered name, adds the registered policy at the apply point whose bucket holds it, and adds nothing elsewhere |
| Resolution.GroupEntryAtSharedBucket | lib/index.js:108-120 | an array entry becomes a parallel aggregate at `p` exactly when its names are distinct and all in `p`'s bucket |
| Execution.Run | lib/index.js:75-92 | whatever runPolicies throws is a Boom error |
| Execution.Invoked | lib/index.js:75-92 | no more policies are called than are listed |
| Execution.RunPolicies | lib/index.js:75-92 | the loop's result and the number of policies it calls are those of the stage specification |
| Execution.FirstStopDecides | lib/index.js:77-88 | the first policy that does not continue decides the stage's outcome (its reply, or its negotiated error), and it is the last one called |
| Execution.AllContinue | lib/index.js:77-91 | a stage continues exactly when every policy continues, and then every policy is called |
| Execution.LastInvokedStopped | lib/index.js:77-89 | when a stage does not continue, the last policy called is the first that did not continue |
| Execution.LaterPoliciesIrrelevant | lib/index.js:81-84 | policies after the one that stopped a stage affect neither its outcome nor what is called |
| Execution.Handle | lib/index.js:98-165 | a route without policies continues; a declaration that fails to resolve throws that error; a thrown error that is not a Boom error comes only from resolving; a stage whose resolved policies all continue continues |
| Execution.HandleStopsAtFirstStop | lib/index.js:164 | when the declaration resolves, the first resolved policy that does not continue ends the stage with its reply or its negotiated error |
| Execution.HandleStage | lib/index.js:98-165 | a route without policies continues; a declaration that fails to resolve throws its error before any policy is called; otherwise the outcome is `Handle`'s (so the first policy that does not continue ends the stage, by `HandleStopsAtFirstStop`) and the policies called are those `runPolicies` calls |
| Scenarios.FailingPolicyIsForbidden | test/index.js:657-664 | a failing policy gives a 403 with its message, wherever it stands, and stops the policies after it |
| Scenarios.ThrownValuesNegotiated | test/index.js:675-681 | a policy that throws a Boom 404 ends the stage with that 404, and a thrown non-Error value becomes a 403 carrying it |
| Scenarios.ReplyEndsStage | test/index.js:701-707 | a policy that answers with a redirect ends the stage with it |
| Scenarios.ParallelDefaultHandlerListedOrder | test/index.js:825-833 | the default handler reports the first listed failure ('custom late') even though another constituent failed first |
| Scenarios.ParallelKeepsBoomError | test/index.js:816-823 | a constituent's Boom 404 is what the parallel aggregate throws, and the stage ends with it |
| Scenarios.CallbackStylePolicyForbidden | test/policies/customError.js:5-8 | a policy written with a `callback` parameter, called as `policy(request, h)`, throws a TypeError, so alone or in a parallel aggregate the stage ends with a 403, not a 404 |
| Scenarios.OrPolicyCases | test/index.js:869-903 | an or-aggregate of two policies continues exactly when either succeeds, and is a 403 with the first failure when both fail |
| Scenarios.StagesSplitDeclaration | lib/index.js:106-162 | `[['A','B'],'C']` with A and B at onPostHandler and C at onPreHandler runs C alone before the handler and parallel(A, B) after it |
| Scenarios.MisspelledPolicyIsNotImplemented | test/index.js:709-715 | a misspelled policy name is a 501 at every apply point |
| Scenarios.ProgrammaticallyAddedPolicy | test/index.js:905-948 | a policy added with `addPolicy` is known afterwards and runs on a route that names it; adding it again is rejected as a duplicate |

## Left out

- hapi plumbing:
  - the request object and `h.continue` are left out;
  - route settings are read through `Hoek.reach`;
  - `server.ext`, `server.expose` and `server.log` are left out;
  - `server.ext` is represented by the apply point it is called with.
- `loadPolicies` is left out: it reads a directory and `require`s files. Its only engine logic is calling `addPolicy` for each export, which is modelled.
- Concurrency is left out. An aggregate's constituents run concurrently; the model takes how each settles as given. `Promise.all` keeps each value in its slot and `_.zipObject` pairs it with its name. `GatheredAreAggregateResults` shows that results paired by name, in any settle order, are exactly the results the model hands the handler; `SettleOrderIrrelevant` shows that two settle orders give the same results.
- The memoization cache of `determineAggregateApplyPoint` is left out. The inference is recomputed from the registry. `DetermineStableUnderGrowth` shows that caching it cannot change its answer as more policies are added.
  - The cache (lodash 4 `_.memoize`, whose `MapCache` keeps non-primitive keys in a native `Map`) keys a list by its identity, not by its text. The model assumes that a repeated call on the same list gives the same result, which `DetermineStableUnderGrowth` justifies while policies are only added.
- Registered policies are opaque. A registered policy that is itself a `parallel` aggregate is opaque too: its behaviour comes from `World.behaviour`. Only aggregates written directly in a route's list are expanded.
- Custom error handlers given to `parallel` are opaque (`World.custom`).
- World: `World.behaviour` fixes how a policy settles once per request. In the code each listing of a policy is a fresh call with the shared `request` (lib/index.js:79, 347), so a name listed twice may settle differently each time, and a policy may depend on what an earlier one did to the request (the example `addAnalytics` policy changes it). The model does not express either, and its properties hold only for behaviours fixed per policy.
- Route values:
  - the route `policies` value is taken to be an array or absent;
  - array elements inside a group are taken to be strings;
  - the `Hoek.assert` on a non-array group is left out.
- Falsy values:
  - every falsy `applyPoint` value (empty string, `null`, `0`, `false`) is represented by one defined-but-falsy tag;
  - thrown falsy values (`throw undefined`) are left out.
- `runs` set by hand on an ordinary function is represented only through the `Aggregate` form.
- Policy names that lodash's `pick` treats as property paths (containing `.` or `[`) are left out. Names that are integer-like, which JavaScript orders before other keys, are left out too. The model takes the results keys in listed order.
- The TypeError message for reading a property of a missing result differs between Node versions. The model fixes one wording.
- A `watchApplyPoints` entry that is not one of the six apply points is left out; hapi itself rejects it.
- WatchApplyPoints: takes a list of apply points, so the `Hoek.assert` that `watchApplyPoints` is an array (lib/index.js:291) is not modelled.
- Contribution, RunAggregate, AddPolicy: names are modelled as map keys, not as properties of plain JavaScript objects. A policy named after an `Object.prototype` member (`toString`, `constructor`) is found through the prototype chain by the bucket lookup (lib/index.js:129) and by `_.pick` (lib/index.js:359-360) even where it is not stored, and storing a policy named `__proto__` (lib/index.js:190) replaces the bucket's prototype instead of adding an entry. The model does not capture either behaviour.
- Handle, HandleStage: model a handler that is wired for its apply point. A handler runs only where `addPolicy` or `watchApplyPoints` wired it (lib/index.js:193-196, 293-297), so an inline policy whose own or inferred apply point has no wired handler is never run. The model does not state this.
- `reset` clears the wiring flags, but the handlers already given to `server.ext` stay on the server. The model's wiring history restarts with the registry. Re-wiring on the same server after a reset is not modelled.
- `Hoek.assert` failures are thrown as plain errors and not negotiated. hapi reports them as 500. That reporting is host behaviour and is left out.
- An aggregate passes on only errors: what a constituent returns is discarded (lib/index.js:349, 366-368), so a constituent's non-continue reply never ends the stage.
- NegotiateError: states that the message is the thrown reason. What Boom does with an Error whose message is empty (`throw new Error()` in test/policies/multiPolicyFile.js) is Boom's code, which is not part of this model.

## Findings

| source | as written | input that shows it | evidently intended | confidence | as-written member | corrected member |
|---|---|---|---|---|---|---|
| test/policies/customError.js:5-8 | the fixture takes `(request, reply, callback)` and calls `callback(Boom.notFound())`, but the engine calls policies as `policy(request, h)` (lib/index.js:79, 347), so `callback` is undefined and the call throws a TypeError, which negotiateError makes a 403 | the routes `/customerror` and `/parallel-custom-error` (test/index.js:675-681, 816-823), which expect 404 | the policy throws `Boom.notFound()`, and the stage ends with that 404 | not executed | Scenarios.CallbackStylePolicyForbidden | Scenarios.ParallelKeepsBoomError |
