/** Running the policies of one apply point: runPolicies, which invokes the
    resolved policy functions one after another and stops at the first that
    does not continue, and the generated handler that resolves a route's
    declaration and then runs it (lib/index.js). */
module Execution {
  import opened Outcomes
  import opened ApplyPoints
  import opened Registry
  import opened Aggregation
  import opened Resolution

  /** How a handler ends: it returns a reply to the host, or throws. */
  datatype StageOutcome = Returned(reply: Reply) | Raised(err: Thrown)

  /** Calling one resolved policy function. */
  function Invoke(world: World, rawPolicies: map<string, Policy>, c: Callable): Settled {
    match c
    case Opaque(id) => world.behaviour(id)
    case Aggregate(runs, handler) => RunAggregate(world, rawPolicies, runs, handler)
  }

  predicate Continues(world: World, rawPolicies: map<string, Policy>, c: Callable) {
    Invoke(world, rawPolicies, c) == Returns(Continue)
  }

  /** What a policy function that does not continue makes of its stage. */
  function Stop(s: Settled): StageOutcome {
    match s
    case Throws(e) => Raised(NegotiateError(e))
    case Returns(reply) => Returned(reply)
  }

  /** runPolicies, as a function: the first result that is not the continue
      signal, with anything thrown passed through negotiateError; continue
      when every policy continues. Whatever it throws is a Boom error. */
  function Run(world: World, rawPolicies: map<string, Policy>, plan: seq<Callable>): (r: StageOutcome)
    ensures r.Raised? ==> r.err.BoomError?
    decreases |plan|
  {
    if |plan| == 0 then Returned(Continue)
    else if Continues(world, rawPolicies, plan[0]) then Run(world, rawPolicies, plan[1..])
    else Stop(Invoke(world, rawPolicies, plan[0]))
  }

  /** How many policy functions runPolicies calls. */
  function Invoked(world: World, rawPolicies: map<string, Policy>, plan: seq<Callable>): (k: nat)
    ensures k <= |plan|
    decreases |plan|
  {
    if |plan| == 0 then 0
    else if Continues(world, rawPolicies, plan[0]) then 1 + Invoked(world, rawPolicies, plan[1..])
    else 1
  }

  /** runPolicies: the `for` loop with its early return. `invoked` counts the
      policy functions it called. */
  method RunPolicies(world: World, rawPolicies: map<string, Policy>, policiesToRun: seq<Callable>)
    returns (r: StageOutcome, invoked: nat)
    ensures r == Run(world, rawPolicies, policiesToRun)
    ensures invoked == Invoked(world, rawPolicies, policiesToRun)
  {
    var i := 0;
    while i < |policiesToRun|
      invariant 0 <= i <= |policiesToRun|
      invariant Run(world, rawPolicies, policiesToRun[i..]) == Run(world, rawPolicies, policiesToRun)
      invariant i + Invoked(world, rawPolicies, policiesToRun[i..]) == Invoked(world, rawPolicies, policiesToRun)
    {
      assert policiesToRun[i..][1..] == policiesToRun[i + 1..];
      var policyResult := Invoke(world, rawPolicies, policiesToRun[i]);
      match policyResult {
        case Throws(err) =>
          return Raised(NegotiateError(err)), i + 1;
        case Returns(reply) =>
          if reply != Continue {
            return Returned(reply), i + 1;
          }
      }
      i := i + 1;
    }
    return Returned(Continue), i;
  }

  /** The first policy that does not continue decides the outcome, and it is
      the last one called: the ones after it never run. */
  lemma {:induction false} FirstStopDecides(world: World, rawPolicies: map<string, Policy>, plan: seq<Callable>, k: nat)
    requires k < |plan|
    requires forall j :: 0 <= j < k ==> Continues(world, rawPolicies, plan[j])
    requires !Continues(world, rawPolicies, plan[k])
    ensures Run(world, rawPolicies, plan) == Stop(Invoke(world, rawPolicies, plan[k]))
    ensures Invoked(world, rawPolicies, plan) == k + 1
    decreases k
  {
    if k > 0 {
      assert Continues(world, rawPolicies, plan[0]);
      assert forall j :: 0 <= j < k - 1 ==> plan[1..][j] == plan[j + 1];
      FirstStopDecides(world, rawPolicies, plan[1..], k - 1);
    }
  }

  /** A stage continues exactly when every policy continues, and then every
      policy was called. */
  lemma {:induction false} AllContinue(world: World, rawPolicies: map<string, Policy>, plan: seq<Callable>)
    ensures Run(world, rawPolicies, plan) == Returned(Continue) <==>
            forall j :: 0 <= j < |plan| ==> Continues(world, rawPolicies, plan[j])
    ensures (forall j :: 0 <= j < |plan| ==> Continues(world, rawPolicies, plan[j])) ==>
            Invoked(world, rawPolicies, plan) == |plan|
    decreases |plan|
  {
    if |plan| > 0 {
      AllContinue(world, rawPolicies, plan[1..]);
      assert forall j :: 0 <= j < |plan| - 1 ==> plan[1..][j] == plan[j + 1];
      if !Continues(world, rawPolicies, plan[0]) {
        assert Invoke(world, rawPolicies, plan[0]) != Returns(Continue);
      } else if forall j :: 0 <= j < |plan| - 1 ==> Continues(world, rawPolicies, plan[1..][j]) {
        forall j | 0 <= j < |plan| ensures Continues(world, rawPolicies, plan[j]) {
          if j > 0 { assert plan[j] == plan[1..][j - 1]; }
        }
      }
    }
  }

  /** When a stage does not continue, the last policy called is the first
      that did not continue. */
  lemma {:induction false} LastInvokedStopped(world: World, rawPolicies: map<string, Policy>, plan: seq<Callable>)
    requires Run(world, rawPolicies, plan) != Returned(Continue)
    ensures Invoked(world, rawPolicies, plan) >= 1
    ensures forall j :: 0 <= j < Invoked(world, rawPolicies, plan) - 1 ==> Continues(world, rawPolicies, plan[j])
    ensures !Continues(world, rawPolicies, plan[Invoked(world, rawPolicies, plan) - 1])
    decreases |plan|
  {
    if Continues(world, rawPolicies, plan[0]) {
      LastInvokedStopped(world, rawPolicies, plan[1..]);
      var k := Invoked(world, rawPolicies, plan[1..]);
      forall j | 0 <= j < k ensures Continues(world, rawPolicies, plan[j]) {
        if j > 0 { assert plan[j] == plan[1..][j - 1]; }
      }
      assert plan[k] == plan[1..][k - 1];
    }
  }

  /** Policies after the one that stopped the stage do not matter: replacing
      them changes neither the outcome nor what was called. */
  lemma LaterPoliciesIrrelevant(world: World, rawPolicies: map<string, Policy>, plan: seq<Callable>, later: seq<Callable>)
    requires Run(world, rawPolicies, plan) != Returned(Continue)
    ensures var k := Invoked(world, rawPolicies, plan);
      && Run(world, rawPolicies, plan[..k] + later) == Run(world, rawPolicies, plan)
      && Invoked(world, rawPolicies, plan[..k] + later) == k
  {
    LastInvokedStopped(world, rawPolicies, plan);
    var k := Invoked(world, rawPolicies, plan) - 1;
    FirstStopDecides(world, rawPolicies, plan, k);
    var cut := plan[..k + 1] + later;
    assert forall j :: 0 <= j <= k ==> cut[j] == plan[j];
    FirstStopDecides(world, rawPolicies, cut, k);
  }

  /** A generated handler, as a function: a route without policies
      continues; otherwise the declaration is resolved for this apply point,
      a resolution error is thrown as it is, and the resolved list is run.
      An error that is not a Boom error can only come from resolving, and a
      stage whose resolved policies all continue continues. */
  function Handle(world: World, names: seq<string>, rawPolicies: map<string, Policy>, buckets: Buckets,
                  defaultApplyPoint: ApplyPoint, p: ApplyPoint, routePolicies: Option<seq<Entry>>): (r: StageOutcome)
    ensures routePolicies.None? ==> r == Returned(Continue)
    ensures routePolicies.Some? && Resolve(names, buckets, defaultApplyPoint, p, routePolicies.value).Err? ==>
      r == Raised(Resolve(names, buckets, defaultApplyPoint, p, routePolicies.value).error)
    ensures r.Raised? && !r.err.BoomError? ==>
      routePolicies.Some? && Resolve(names, buckets, defaultApplyPoint, p, routePolicies.value).Err?
    ensures routePolicies.Some? && Resolve(names, buckets, defaultApplyPoint, p, routePolicies.value).Ok? &&
            (forall j :: 0 <= j < |Resolve(names, buckets, defaultApplyPoint, p, routePolicies.value).value| ==>
               Continues(world, rawPolicies, Resolve(names, buckets, defaultApplyPoint, p, routePolicies.value).value[j])) ==>
      r == Returned(Continue)
  {
    match routePolicies
    case None => Returned(Continue)
    case Some(entries) =>
      match Resolve(names, buckets, defaultApplyPoint, p, entries)
      case Err(e) => Raised(e)
      case Ok(plan) =>
        AllContinue(world, rawPolicies, plan);
        Run(world, rawPolicies, plan)
  }

  /** When the route's declaration resolves, the first resolved policy that
      does not continue ends the stage with its reply or its negotiated
      error. */
  lemma HandleStopsAtFirstStop(world: World, names: seq<string>, rawPolicies: map<string, Policy>, buckets: Buckets,
                               defaultApplyPoint: ApplyPoint, p: ApplyPoint, entries: seq<Entry>,
                               plan: seq<Callable>, k: nat)
    requires Resolve(names, buckets, defaultApplyPoint, p, entries) == Ok(plan)
    requires k < |plan|
    requires forall j :: 0 <= j < k ==> Continues(world, rawPolicies, plan[j])
    requires !Continues(world, rawPolicies, plan[k])
    ensures Handle(world, names, rawPolicies, buckets, defaultApplyPoint, p, Some(entries)) ==
            Stop(Invoke(world, rawPolicies, plan[k]))
  {
    FirstStopDecides(world, rawPolicies, plan, k);
  }

  /** `handlers[p]`: resolve against the registry as it is when the request
      arrives, then run. `invoked` counts the policy functions called; a
      declaration that fails to resolve throws before any is. */
  method HandleStage(names: seq<string>, rawPolicies: map<string, Policy>, buckets: Buckets, world: World,
                     defaultApplyPoint: ApplyPoint, p: ApplyPoint, routePolicies: Option<seq<Entry>>)
    returns (r: StageOutcome, invoked: nat)
    ensures r == Handle(world, names, rawPolicies, buckets, defaultApplyPoint, p, routePolicies)
    ensures routePolicies.None? ==> r == Returned(Continue) && invoked == 0
    ensures routePolicies.Some? && Resolve(names, buckets, defaultApplyPoint, p, routePolicies.value).Err? ==>
      r == Raised(Resolve(names, buckets, defaultApplyPoint, p, routePolicies.value).error) && invoked == 0
    ensures routePolicies.Some? && Resolve(names, buckets, defaultApplyPoint, p, routePolicies.value).Ok? ==>
      invoked == Invoked(world, rawPolicies, Resolve(names, buckets, defaultApplyPoint, p, routePolicies.value).value)
  {
    if routePolicies.None? {
      return Returned(Continue), 0;
    }
    var policiesToRun := ResolveStage(names, buckets, defaultApplyPoint, p, routePolicies.value);
    if policiesToRun.Err? {
      return Raised(policiesToRun.error), 0;
    }
    r, invoked := RunPolicies(world, rawPolicies, policiesToRun.value);
  }
}
