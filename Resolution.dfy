/** The per-apply-point resolution of a route's `policies` list: the
    `reduce` inside each generated handler of lib/index.js, which turns the
    declared entries into the ordered list of policy functions to run at one
    apply point, or throws. */
module Resolution {
  import opened Outcomes
  import opened ApplyPoints
  import opened Registry
  import opened Aggregation

  /** One entry of a route's `policies` list. */
  datatype Entry =
    | ByName(name: string)                               // a string: a registered policy
    | Inline(body: Callable, applyPoint: ApplyPointTag)  // a function, with its `applyPoint` property
    | Group(names: seq<string>)                          // an array of names: a parallel aggregate
    | NullEntry                                          // null, which is skipped
    | Malformed                                          // any other value

  function MissingPolicy(name: string): Thrown {
    BoomError(NotImplemented, "Missing policy: " + name)
  }

  const NotByNameOrFunction: Thrown :=
    BoomError(BadImplementation, "Policy not specified by name or by function.")

  function IncorrectDynamicApplyPoint(t: ApplyPointTag): Thrown
    requires t.Defined?
  {
    BoomError(BadImplementation, "Trying to use incorrect applyPoint for the dynamic policy: " + t.value)
  }

  /** The apply point a function entry runs at: its own `applyPoint` if it
      has a truthy one (which must be one of the six), else the apply point
      of its constituents if it is an aggregate, else the plugin default. */
  function InlineApplyPoint(names: seq<string>, buckets: Buckets, defaultApplyPoint: ApplyPoint,
                            body: Callable, t: ApplyPointTag): (r: Result<ApplyPoint, Thrown>)
    ensures IsTruthy(t) ==> (r.Ok? <==> exists p: ApplyPoint :: Name(p) == t.value)
    ensures IsTruthy(t) && r.Ok? ==> Name(r.value) == t.value
    ensures IsTruthy(t) && r.Err? ==> r.error == IncorrectDynamicApplyPoint(t)
    ensures !IsTruthy(t) && body.Aggregate? ==> r == DetermineAggregateApplyPoint(names, buckets, body.runs)
    ensures !IsTruthy(t) && body.Opaque? ==> r == Ok(defaultApplyPoint)
  {
    var inferred :=
      if body.Aggregate? && !IsTruthy(t) then Some(DetermineAggregateApplyPoint(names, buckets, body.runs))
      else None;
    if inferred.Some? && inferred.value.Err? then Err(inferred.value.error)
    else if !HasValidApplyPoint(t) then Err(IncorrectDynamicApplyPoint(t))
    else if IsTruthy(t) then Ok(TaggedApplyPoint(t))
    else if inferred.Some? then Ok(inferred.value.value)
    else Ok(defaultApplyPoint)
  }

  /** What one entry adds to the list of apply point `p` (nothing, or one
      policy function), or what it throws. A name must be loaded (else 501)
      and is added at the apply point it is stored under; an array becomes a
      parallel aggregate added at its constituents' common apply point; a
      function is added as it is at its own apply point; null adds nothing
      and any other value throws a 500. */
  function Contribution(names: seq<string>, buckets: Buckets, defaultApplyPoint: ApplyPoint,
                        p: ApplyPoint, entry: Entry): (r: Result<seq<Callable>, Thrown>)
    ensures r.Ok? ==> |r.value| <= 1
    ensures entry.NullEntry? ==> r == Ok([])
    ensures entry.Malformed? ==> r == Err(NotByNameOrFunction)
    ensures entry.ByName? ==> (r.Err? <==> entry.name !in names)
    ensures entry.ByName? && r.Err? ==> r.error == MissingPolicy(entry.name) && r.error.status == NotImplemented
    ensures entry.ByName? && r.Ok? ==> (|r.value| == 1 <==> entry.name in BucketAt(buckets, p))
    ensures entry.Group? ==> (r.Err? <==> DetermineAggregateApplyPoint(names, buckets, entry.names).Err?)
    ensures entry.Group? && r.Ok? ==>
      (r.value == [Aggregate(entry.names, DefaultHandler)] <==> DetermineAggregateApplyPoint(names, buckets, entry.names) == Ok(p))
    ensures entry.Group? && r.Err? ==> r.error == DetermineAggregateApplyPoint(names, buckets, entry.names).error
    ensures entry.Inline? && r.Ok? ==>
      (r.value == [entry.body] <==> InlineApplyPoint(names, buckets, defaultApplyPoint, entry.body, entry.applyPoint) == Ok(p))
    ensures entry.Inline? ==> (r.Err? <==> InlineApplyPoint(names, buckets, defaultApplyPoint, entry.body, entry.applyPoint).Err?)
    ensures entry.Inline? && r.Err? ==>
      r.error == InlineApplyPoint(names, buckets, defaultApplyPoint, entry.body, entry.applyPoint).error
  {
    match entry
    case ByName(n) =>
      if n !in names then Err(MissingPolicy(n))
      else if n in BucketAt(buckets, p) then Ok([Opaque(BucketAt(buckets, p)[n].id)])
      else Ok([])
    case Group(ns) =>
      (match DetermineAggregateApplyPoint(names, buckets, ns)
       case Err(e) => Err(e)
       case Ok(q) =>
         if q != p then Ok([])
         else Ok([Parallel(ns, None).value]))
    case Inline(body, t) =>
      (match InlineApplyPoint(names, buckets, defaultApplyPoint, body, t)
       case Err(e) => Err(e)
       case Ok(q) => if q == p then Ok([body]) else Ok([]))
    case NullEntry => Ok([])
    case Malformed => Err(NotByNameOrFunction)
  }

  /** Every entry's contribution, in declared order. */
  function Contributions(names: seq<string>, buckets: Buckets, defaultApplyPoint: ApplyPoint,
                         p: ApplyPoint, entries: seq<Entry>): (cs: seq<Result<seq<Callable>, Thrown>>)
    ensures |cs| == |entries|
    ensures forall i :: 0 <= i < |entries| ==> cs[i] == Contribution(names, buckets, defaultApplyPoint, p, entries[i])
  {
    seq(|entries|, i requires 0 <= i < |entries| => Contribution(names, buckets, defaultApplyPoint, p, entries[i]))
  }

  /** Contributions joined in order; the first error stops the join. */
  function Chain(cs: seq<Result<seq<Callable>, Thrown>>): Result<seq<Callable>, Thrown>
    decreases |cs|
  {
    if |cs| == 0 then Ok([])
    else
      match Chain(cs[..|cs| - 1])
      case Err(e) => Err(e)
      case Ok(plan) =>
        match cs[|cs| - 1]
        case Err(e) => Err(e)
        case Ok(c) => Ok(plan + c)
  }

  /** The list the reduce builds for apply point `p`: the entries'
      contributions in declared order, or the first error thrown. */
  function Resolve(names: seq<string>, buckets: Buckets, defaultApplyPoint: ApplyPoint,
                   p: ApplyPoint, entries: seq<Entry>): Result<seq<Callable>, Thrown>
  {
    Chain(Contributions(names, buckets, defaultApplyPoint, p, entries))
  }

  /** A chain of one contribution is that contribution. */
  lemma ChainOfOne(c0: Result<seq<Callable>, Thrown>)
    ensures Chain([c0]) == c0
  {
    assert [c0][..0] == [];
    if c0.Ok? {
      assert [] + c0.value == c0.value;
    }
  }

  /** A chain of two successful contributions joins them in order. */
  lemma ChainOfTwo(c0: Result<seq<Callable>, Thrown>, c1: Result<seq<Callable>, Thrown>)
    requires c0.Ok? && c1.Ok?
    ensures Chain([c0, c1]) == Ok(c0.value + c1.value)
  {
    assert [c0, c1][..1] == [c0];
    ChainOfOne(c0);
  }

  lemma {:induction false} ChainAppend(front: seq<Result<seq<Callable>, Thrown>>, back: seq<Result<seq<Callable>, Thrown>>)
    ensures Chain(front + back) ==
      match Chain(front)
      case Err(e) => Err(e)
      case Ok(planFront) =>
        match Chain(back)
        case Err(e) => Err(e)
        case Ok(planBack) => Ok(planFront + planBack)
    decreases |back|
  {
    if |back| == 0 {
      assert front + back == front;
      if Chain(front).Ok? {
        assert Chain(front).value + [] == Chain(front).value;
      }
    } else {
      var all := front + back;
      assert all[..|all| - 1] == front + back[..|back| - 1];
      assert all[|all| - 1] == back[|back| - 1];
      ChainAppend(front, back[..|back| - 1]);
      var rf := Chain(front);
      if rf.Ok? {
        var rb := Chain(back[..|back| - 1]);
        if rb.Ok? && back[|back| - 1].Ok? {
          assert rf.value + (rb.value + back[|back| - 1].value) == (rf.value + rb.value) + back[|back| - 1].value;
        }
      }
    }
  }

  lemma ContributionsAppend(names: seq<string>, buckets: Buckets, defaultApplyPoint: ApplyPoint,
                            p: ApplyPoint, front: seq<Entry>, back: seq<Entry>)
    ensures Contributions(names, buckets, defaultApplyPoint, p, front + back) ==
            Contributions(names, buckets, defaultApplyPoint, p, front) + Contributions(names, buckets, defaultApplyPoint, p, back)
  {
  }

  /** The `routePolicies.reduce` of a generated handler, pushing onto an
      accumulator and throwing at the first entry that cannot be resolved. */
  method ResolveStage(names: seq<string>, buckets: Buckets, defaultApplyPoint: ApplyPoint,
                      p: ApplyPoint, routePolicies: seq<Entry>) returns (r: Result<seq<Callable>, Thrown>)
    ensures r == Resolve(names, buckets, defaultApplyPoint, p, routePolicies)
  {
    var tmpList: seq<Callable> := [];
    var i := 0;
    while i < |routePolicies|
      invariant 0 <= i <= |routePolicies|
      invariant Resolve(names, buckets, defaultApplyPoint, p, routePolicies[..i]) == Ok(tmpList)
    {
      ResolveStep(names, buckets, defaultApplyPoint, p, routePolicies, i);
      var routePolicy := routePolicies[i];
      ghost var before, added := tmpList, [];
      match routePolicy {
        case ByName(n) =>
          if n !in names {
            FirstFailingEntryDecides(names, buckets, defaultApplyPoint, p, routePolicies, i);
            return Err(MissingPolicy(n));
          }
          var applyPointPolicies := BucketAt(buckets, p);
          if n in applyPointPolicies {
            tmpList := tmpList + [Opaque(applyPointPolicies[n].id)];
            added := [Opaque(applyPointPolicies[n].id)];
          }
        case Group(ns) =>
          var aggregateApplyPoint := DetermineAggregateApplyPoint(names, buckets, ns);
          if aggregateApplyPoint.Err? {
            FirstFailingEntryDecides(names, buckets, defaultApplyPoint, p, routePolicies, i);
            return Err(aggregateApplyPoint.error);
          }
          if aggregateApplyPoint.value == p {
            // parallel's own assertions hold: the inference has checked
            // that the list is non-empty and free of duplicates
            var aggregate := Parallel(ns, None);
            tmpList := tmpList + [aggregate.value];
            added := [aggregate.value];
          }
        case Inline(body, t) =>
          var effective := InlineApplyPoint(names, buckets, defaultApplyPoint, body, t);
          if effective.Err? {
            FirstFailingEntryDecides(names, buckets, defaultApplyPoint, p, routePolicies, i);
            return Err(effective.error);
          }
          if effective.value == p {
            tmpList := tmpList + [body];
            added := [body];
          }
        case NullEntry =>
        case Malformed =>
          FirstFailingEntryDecides(names, buckets, defaultApplyPoint, p, routePolicies, i);
          return Err(NotByNameOrFunction);
      }
      assert Contribution(names, buckets, defaultApplyPoint, p, routePolicy) == Ok(added);
      assert tmpList == before + added;
      i := i + 1;
    }
    assert routePolicies[..i] == routePolicies;
    r := Ok(tmpList);
  }

  /** Resolution is compositional: a list resolves as its two halves do, in
      order, and an error in the first half wins. */
  lemma ResolveAppend(names: seq<string>, buckets: Buckets, defaultApplyPoint: ApplyPoint,
                      p: ApplyPoint, front: seq<Entry>, back: seq<Entry>)
    ensures Resolve(names, buckets, defaultApplyPoint, p, front + back) ==
      match Resolve(names, buckets, defaultApplyPoint, p, front)
      case Err(e) => Err(e)
      case Ok(planFront) =>
        match Resolve(names, buckets, defaultApplyPoint, p, back)
        case Err(e) => Err(e)
        case Ok(planBack) => Ok(planFront + planBack)
  {
    ContributionsAppend(names, buckets, defaultApplyPoint, p, front, back);
    ChainAppend(Contributions(names, buckets, defaultApplyPoint, p, front), Contributions(names, buckets, defaultApplyPoint, p, back));
  }

  /** Resolving one more entry. */
  lemma ResolveStep(names: seq<string>, buckets: Buckets, defaultApplyPoint: ApplyPoint,
                    p: ApplyPoint, entries: seq<Entry>, i: nat)
    requires i < |entries|
    ensures Resolve(names, buckets, defaultApplyPoint, p, entries[..i + 1]) ==
      match Resolve(names, buckets, defaultApplyPoint, p, entries[..i])
      case Err(e) => Err(e)
      case Ok(plan) =>
        match Contribution(names, buckets, defaultApplyPoint, p, entries[i])
        case Err(e) => Err(e)
        case Ok(c) => Ok(plan + c)
  {
    var cs := Contributions(names, buckets, defaultApplyPoint, p, entries[..i + 1]);
    assert cs[..i] == Contributions(names, buckets, defaultApplyPoint, p, entries[..i]);
  }

  lemma {:induction false} ChainOkMeansAllOk(cs: seq<Result<seq<Callable>, Thrown>>)
    requires Chain(cs).Ok?
    ensures forall i :: 0 <= i < |cs| ==> cs[i].Ok?
    decreases |cs|
  {
    if |cs| > 0 {
      ChainOkMeansAllOk(cs[..|cs| - 1]);
      assert forall i :: 0 <= i < |cs| - 1 ==> cs[i] == cs[..|cs| - 1][i];
    }
  }

  /** Every entry of a list that resolves contributes without error; in
      particular every name it lists is registered. */
  lemma ResolvedEntriesAllResolve(names: seq<string>, buckets: Buckets, defaultApplyPoint: ApplyPoint,
                                  p: ApplyPoint, entries: seq<Entry>)
    requires Resolve(names, buckets, defaultApplyPoint, p, entries).Ok?
    ensures forall i :: 0 <= i < |entries| ==> Contribution(names, buckets, defaultApplyPoint, p, entries[i]).Ok?
    ensures forall i :: 0 <= i < |entries| && entries[i].ByName? ==> entries[i].name in names
  {
    var cs := Contributions(names, buckets, defaultApplyPoint, p, entries);
    ChainOkMeansAllOk(cs);
    forall i | 0 <= i < |entries| ensures Contribution(names, buckets, defaultApplyPoint, p, entries[i]).Ok? {
      assert cs[i].Ok?;
    }
  }

  /** The first entry that cannot be resolved decides the error: nothing
      after it is looked at. */
  lemma FirstFailingEntryDecides(names: seq<string>, buckets: Buckets, defaultApplyPoint: ApplyPoint,
                                 p: ApplyPoint, entries: seq<Entry>, i: nat)
    requires i < |entries|
    requires Resolve(names, buckets, defaultApplyPoint, p, entries[..i]).Ok?
    requires Contribution(names, buckets, defaultApplyPoint, p, entries[i]).Err?
    ensures Resolve(names, buckets, defaultApplyPoint, p, entries) ==
            Err(Contribution(names, buckets, defaultApplyPoint, p, entries[i]).error)
  {
    ResolveStep(names, buckets, defaultApplyPoint, p, entries, i);
    assert entries == entries[..i + 1] + entries[i + 1..];
    ResolveAppend(names, buckets, defaultApplyPoint, p, entries[..i + 1], entries[i + 1..]);
  }

  /** Whether an entry throws does not depend on the apply point being
      resolved, and an entry is added at no more than one apply point. */
  lemma ContributionAtOneApplyPoint(names: seq<string>, buckets: Buckets, defaultApplyPoint: ApplyPoint,
                                    entry: Entry, p: ApplyPoint, q: ApplyPoint)
    requires BucketsDisjoint(buckets)
    ensures Contribution(names, buckets, defaultApplyPoint, p, entry).Ok? <==>
            Contribution(names, buckets, defaultApplyPoint, q, entry).Ok?
    ensures p != q && Contribution(names, buckets, defaultApplyPoint, p, entry).Ok? &&
            |Contribution(names, buckets, defaultApplyPoint, p, entry).value| == 1 ==>
            Contribution(names, buckets, defaultApplyPoint, q, entry) == Ok([])
  {
    match entry
    case Group(ns) =>
      var d := DetermineAggregateApplyPoint(names, buckets, ns);
      if d.Ok? {
        assert Parallel(ns, None).Ok?;
      }
    case _ =>
  }

  /** Two chains whose members fail at the same places with the same errors
      fail alike. */
  lemma {:induction false} ChainErrorsAlike(cs1: seq<Result<seq<Callable>, Thrown>>, cs2: seq<Result<seq<Callable>, Thrown>>)
    requires |cs1| == |cs2|
    requires forall i :: 0 <= i < |cs1| ==> (cs1[i].Err? <==> cs2[i].Err?) && (cs1[i].Err? ==> cs1[i] == cs2[i])
    ensures Chain(cs1).Err? ==> Chain(cs2) == Chain(cs1)
    decreases |cs1|
  {
    if |cs1| > 0 {
      var n := |cs1| - 1;
      assert forall i :: 0 <= i < n ==> cs1[..n][i] == cs1[i] && cs2[..n][i] == cs2[i];
      ChainErrorsAlike(cs1[..n], cs2[..n]);
      ChainErrorsAlike(cs2[..n], cs1[..n]);
    }
  }

  /** A whole declaration that fails to resolve at one apply point fails
      with the same error at every other. */
  lemma ResolveErrorAtEveryApplyPoint(names: seq<string>, buckets: Buckets, defaultApplyPoint: ApplyPoint,
                                      entries: seq<Entry>, p: ApplyPoint, q: ApplyPoint)
    ensures Resolve(names, buckets, defaultApplyPoint, p, entries).Err? ==>
            Resolve(names, buckets, defaultApplyPoint, q, entries) == Resolve(names, buckets, defaultApplyPoint, p, entries)
  {
    var csp := Contributions(names, buckets, defaultApplyPoint, p, entries);
    var csq := Contributions(names, buckets, defaultApplyPoint, q, entries);
    forall i | 0 <= i < |entries| ensures (csp[i].Err? <==> csq[i].Err?) && (csp[i].Err? ==> csp[i] == csq[i]) {
      if csp[i].Err? {
        ContributionErrorSame(names, buckets, defaultApplyPoint, entries[i], p, q);
      }
    }
    ChainErrorsAlike(csp, csq);
  }

  lemma ContributionErrorSame(names: seq<string>, buckets: Buckets, defaultApplyPoint: ApplyPoint,
                              entry: Entry, p: ApplyPoint, q: ApplyPoint)
    requires Contribution(names, buckets, defaultApplyPoint, p, entry).Err?
    requires Contribution(names, buckets, defaultApplyPoint, q, entry).Err?
    ensures Contribution(names, buckets, defaultApplyPoint, p, entry) ==
            Contribution(names, buckets, defaultApplyPoint, q, entry)
  {
    match entry
    case Group(ns) =>
      var d := DetermineAggregateApplyPoint(names, buckets, ns);
      if d.Ok? {
        assert Parallel(ns, None).Ok?;
      }
    case _ =>
  }

  /** In a consistent registry a name entry is added exactly at the apply
      point of the bucket that holds it, as that registered policy. */
  lemma NameEntryAtItsBucket(names: seq<string>, rawPolicies: map<string, Policy>, buckets: Buckets,
                             defaultApplyPoint: ApplyPoint, name: string, p: ApplyPoint)
    requires Consistent(names, rawPolicies, buckets)
    ensures name !in rawPolicies ==>
            Contribution(names, buckets, defaultApplyPoint, p, ByName(name)) == Err(MissingPolicy(name))
    ensures name in BucketAt(buckets, p) ==>
            Contribution(names, buckets, defaultApplyPoint, p, ByName(name)) == Ok([Opaque(rawPolicies[name].id)])
    ensures name in rawPolicies && name !in BucketAt(buckets, p) ==>
            Contribution(names, buckets, defaultApplyPoint, p, ByName(name)) == Ok([])
  {
  }

  /** In a consistent registry an array entry is added at `p`, as a
      parallel aggregate with the default handler, exactly when its names
      are distinct and all in `p`'s bucket. */
  lemma GroupEntryAtSharedBucket(names: seq<string>, rawPolicies: map<string, Policy>, buckets: Buckets,
                                 defaultApplyPoint: ApplyPoint, ns: seq<string>, p: ApplyPoint)
    requires Consistent(names, rawPolicies, buckets)
    ensures Contribution(names, buckets, defaultApplyPoint, p, Group(ns)) == Ok([Aggregate(ns, DefaultHandler)]) <==>
            |ns| > 0 && NoDup(ns) && forall n :: n in ns ==> n in BucketAt(buckets, p)
  {
    DetermineInConsistentRegistry(names, rawPolicies, buckets, ns, p);
  }
}
