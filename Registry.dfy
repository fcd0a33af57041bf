/** The policy registry: the module-level `data` object of lib/index.js with
    its `names` list, `rawPolicies` map, one name-to-policy bucket per apply
    point and the wired-once `setHandlers` flags; and the inference of an
    aggregate's apply point from that content. */
module Registry {
  import opened Outcomes
  import opened ApplyPoints

  /** A registered policy function: its opaque identity and its own
      `applyPoint` property. */
  datatype Policy = Policy(id: PolicyId, applyPoint: ApplyPointTag)

  type Bucket = map<string, Policy>
  type Buckets = map<ApplyPoint, Bucket>

  /** `data[p]`; a missing bucket reads as empty. */
  function BucketAt(buckets: Buckets, p: ApplyPoint): Bucket {
    if p in buckets then buckets[p] else map[]
  }

  function EmptyBuckets(): (b: Buckets)
    ensures forall p: ApplyPoint :: p in b && b[p] == map[]
  {
    EveryApplyPointListed();
    map p: ApplyPoint | p in AllApplyPoints :: map[]
  }

  /** The index of the first point of `points` whose bucket holds `name`:
      the search loop of determineAggregateApplyPoint. */
  function FirstHolding(buckets: Buckets, name: string, points: seq<ApplyPoint>): (r: Option<nat>)
    ensures r.Some? ==> r.value < |points| && name in BucketAt(buckets, points[r.value])
    ensures r.Some? ==> forall j :: 0 <= j < r.value ==> name !in BucketAt(buckets, points[j])
    ensures r.None? ==> forall j :: 0 <= j < |points| ==> name !in BucketAt(buckets, points[j])
    decreases |points|
  {
    if |points| == 0 then None
    else if name in BucketAt(buckets, points[0]) then Some(0)
    else match FirstHolding(buckets, name, points[1..])
      case None => None
      case Some(k) => Some(k + 1)
  }

  /** A list has as many distinct values as elements exactly when it has no
      duplicates. */
  lemma {:induction false} ElementsCard<T>(s: seq<T>)
    ensures |Elements(s)| <= |s|
    ensures |Elements(s)| == |s| <==> NoDup(s)
  {
    if |s| > 0 {
      var t := s[1..];
      ElementsCard(t);
      assert Elements(s) == {s[0]} + Elements(t) by {
        forall x ensures x in Elements(s) <==> x in {s[0]} + Elements(t) {
          if x in s && x != s[0] {
            var i :| 0 <= i < |s| && s[i] == x;
            assert t[i - 1] == x;
          }
        }
      }
      if s[0] in t {
        var i :| 0 <= i < |t| && t[i] == s[0];
        assert s[i + 1] == s[0];
        assert Elements(s) == Elements(t);
      } else {
        assert NoDup(s) <==> NoDup(t) by {
          if NoDup(t) {
            forall i, j | 0 <= i < j < |s| ensures s[i] != s[j] {
              if i == 0 { assert s[j] == t[j - 1]; } else { assert s[i] == t[i - 1] && s[j] == t[j - 1]; }
            }
          }
          if NoDup(s) {
            forall i, j | 0 <= i < j < |t| ensures t[i] != t[j] {
              assert t[i] == s[i + 1] && t[j] == s[j + 1];
            }
          }
        }
      }
    }
  }

  /** A subset of a finite set no smaller than it is the whole set. */
  lemma {:induction false} SubsetCard<T>(a: set<T>, b: set<T>)
    requires a <= b
    ensures |a| <= |b|
    ensures |a| == |b| ==> a == b
    decreases b
  {
    if b != {} {
      var x :| x in b;
      SubsetCard(a - {x}, b - {x});
      if x in a {
        assert |a - {x}| == |a| - 1;
        if |a| == |b| {
          assert a - {x} == b - {x};
          assert a == (a - {x}) + {x} && b == (b - {x}) + {x};
        }
      } else {
        assert a - {x} == a;
      }
    }
  }

  /** `_.intersection(collection, list).length === list.length` holds exactly
      when the list has no duplicates and every element is in the collection. */
  lemma IntersectionCoversList<T>(collection: set<T>, list: seq<T>)
    ensures |collection * Elements(list)| == |list| <==>
            NoDup(list) && forall x :: x in list ==> x in collection
  {
    var e := Elements(list);
    ElementsCard(list);
    SubsetCard(collection * e, e);
    if NoDup(list) && forall x :: x in list ==> x in collection {
      assert collection * e == e;
    }
    if |collection * e| == |list| {
      assert collection * e == e;
      forall x | x in list ensures x in collection {
        assert x in e;
      }
    }
  }

  /** determineAggregateApplyPoint: the apply point of an aggregate of the
      listed policies. Its assertions become errors; when it succeeds the
      list is non-empty, free of duplicates, all registered, and the answer
      is the first apply point, in lifecycle order, whose bucket holds the
      first name, a bucket that holds every listed name. */
  function DetermineAggregateApplyPoint(names: seq<string>, buckets: Buckets, policyNames: seq<string>)
    : (r: Result<ApplyPoint, Thrown>)
    ensures r.Ok? ==> |policyNames| > 0 && NoDup(policyNames)
    ensures r.Ok? ==> forall n :: n in policyNames ==> n in names && n in BucketAt(buckets, r.value)
    ensures r.Ok? ==> exists k :: 0 <= k < |AllApplyPoints| && AllApplyPoints[k] == r.value &&
                       forall j :: 0 <= j < k ==> policyNames[0] !in BucketAt(buckets, AllApplyPoints[j])
    ensures |policyNames| == 0 ==> r == Err(PlainError("Requires non-empty array of policy names."))
    ensures |policyNames| > 0 && !(NoDup(policyNames) && forall n :: n in policyNames ==> n in names) ==>
      r == Err(PlainError("Requires loaded policy names."))
    ensures |policyNames| > 0 && NoDup(policyNames) && (forall n :: n in policyNames ==> n in names) &&
            FirstHolding(buckets, policyNames[0], AllApplyPoints).None? ==>
      r == Err(PlainError("Policies must be in a valid applyPoint."))
    ensures |policyNames| > 0 && NoDup(policyNames) && (forall n :: n in policyNames ==> n in names) &&
            FirstHolding(buckets, policyNames[0], AllApplyPoints).Some? &&
            !(forall n :: n in policyNames ==>
                n in BucketAt(buckets, AllApplyPoints[FirstHolding(buckets, policyNames[0], AllApplyPoints).value])) ==>
      r == Err(PlainError("Aggregate policies must be from same applyPoint."))
  {
    IntersectionCoversList(Elements(names), policyNames);
    if |policyNames| == 0 then
      Err(PlainError("Requires non-empty array of policy names."))
    else if |Elements(names) * Elements(policyNames)| != |policyNames| then
      Err(PlainError("Requires loaded policy names."))
    else
      match FirstHolding(buckets, policyNames[0], AllApplyPoints)
      case None => Err(PlainError("Policies must be in a valid applyPoint."))
      case Some(k) =>
        var p := AllApplyPoints[k];
        IntersectionCoversList(BucketAt(buckets, p).Keys, policyNames);
        if |BucketAt(buckets, p).Keys * Elements(policyNames)| != |policyNames| then
          Err(PlainError("Aggregate policies must be from same applyPoint."))
        else
          Ok(p)
  }

  /** A stored policy's own tag is absent or names the bucket it is in: a
      falsy or unknown tag is never stored. */
  predicate StoredUnder(t: ApplyPointTag, p: ApplyPoint) {
    t == Undefined || (IsTruthy(t) && Name(p) == t.value)
  }

  /** The registry's invariant: six buckets; `names` without duplicates and
      holding exactly the keys of `rawPolicies`; every registered policy in
      exactly one bucket, stored there as in `rawPolicies`. */
  ghost predicate Consistent(names: seq<string>, rawPolicies: map<string, Policy>, buckets: Buckets) {
    && (forall p: ApplyPoint :: p in buckets)
    && NoDup(names)
    && (forall n :: n in rawPolicies <==> n in names)
    && BucketsAgree(rawPolicies, buckets)
    && (forall n :: n in rawPolicies ==> exists p :: n in BucketAt(buckets, p))
    && BucketsDisjoint(buckets)
  }

  /** Every bucketed policy is registered as stored there, under a tag that
      allows that bucket. */
  ghost predicate BucketsAgree(rawPolicies: map<string, Policy>, buckets: Buckets) {
    forall p, n :: n in BucketAt(buckets, p) ==>
      n in rawPolicies && BucketAt(buckets, p)[n] == rawPolicies[n] && StoredUnder(rawPolicies[n].applyPoint, p)
  }

  /** No policy is in two buckets. */
  ghost predicate BucketsDisjoint(buckets: Buckets) {
    forall p, q, n :: n in BucketAt(buckets, p) && n in BucketAt(buckets, q) ==> p == q
  }

  /** In a consistent registry an aggregate's apply point is `p` exactly when
      the list is non-empty, free of duplicates, and every listed policy is
      in the bucket of `p`. */
  lemma DetermineInConsistentRegistry(names: seq<string>, rawPolicies: map<string, Policy>, buckets: Buckets,
                                      policyNames: seq<string>, p: ApplyPoint)
    requires Consistent(names, rawPolicies, buckets)
    ensures DetermineAggregateApplyPoint(names, buckets, policyNames) == Ok(p) <==>
            |policyNames| > 0 && NoDup(policyNames) && forall n :: n in policyNames ==> n in BucketAt(buckets, p)
  {
    if |policyNames| > 0 && NoDup(policyNames) && forall n :: n in policyNames ==> n in BucketAt(buckets, p) {
      forall n | n in policyNames ensures n in names {
        assert n in rawPolicies;
      }
      assert policyNames[0] in BucketAt(buckets, p);
      assert forall q :: q != p ==> policyNames[0] !in BucketAt(buckets, q);
      DetermineFromOneBucket(names, buckets, policyNames, p);
    }
  }

  /** The list inferred at `p` when every listed name is registered and in
      `p`'s bucket, and the first name is in no other bucket. */
  lemma DetermineFromOneBucket(names: seq<string>, buckets: Buckets, policyNames: seq<string>, p: ApplyPoint)
    requires |policyNames| > 0 && NoDup(policyNames)
    requires forall n :: n in policyNames ==> n in names && n in BucketAt(buckets, p)
    requires forall q :: q != p ==> policyNames[0] !in BucketAt(buckets, q)
    ensures DetermineAggregateApplyPoint(names, buckets, policyNames) == Ok(p)
  {
    IntersectionCoversList(Elements(names), policyNames);
    IntersectionCoversList(BucketAt(buckets, p).Keys, policyNames);
    AllApplyPointsComplete(p);
    var i :| 0 <= i < |AllApplyPoints| && AllApplyPoints[i] == p;
    assert policyNames[0] in BucketAt(buckets, AllApplyPoints[i]);
    var k := FirstHolding(buckets, policyNames[0], AllApplyPoints);
    assert k.Some?;
    assert AllApplyPoints[k.value] == p;
  }

  /** Whether `name` is in the same buckets of two registries. */
  ghost predicate SameBuckets(b1: Buckets, b2: Buckets, name: string) {
    forall p :: name in BucketAt(b1, p) <==> name in BucketAt(b2, p)
  }

  lemma {:induction false} FirstHoldingSameBuckets(b1: Buckets, b2: Buckets, name: string, points: seq<ApplyPoint>)
    requires SameBuckets(b1, b2, name)
    ensures FirstHolding(b1, name, points) == FirstHolding(b2, name, points)
    decreases |points|
  {
    if |points| > 0 {
      FirstHoldingSameBuckets(b1, b2, name, points[1..]);
    }
  }

  /** The answer never goes stale while the registry only grows: policies
      added after a successful inference leave it unchanged. This is why
      memoizing determineAggregateApplyPoint until the next reset is sound. */
  lemma DetermineStableUnderGrowth(names: seq<string>, buckets: Buckets,
                                   namesAfter: seq<string>, bucketsAfter: Buckets, policyNames: seq<string>)
    requires forall n :: n in names ==> n in namesAfter
    requires forall p, n :: n in BucketAt(buckets, p) ==> n in BucketAt(bucketsAfter, p)
    requires forall p, n :: n in names && n in BucketAt(bucketsAfter, p) ==> n in BucketAt(buckets, p)
    requires DetermineAggregateApplyPoint(names, buckets, policyNames).Ok?
    ensures DetermineAggregateApplyPoint(namesAfter, bucketsAfter, policyNames) ==
            DetermineAggregateApplyPoint(names, buckets, policyNames)
  {
    var first := policyNames[0];
    IntersectionCoversList(Elements(names), policyNames);
    IntersectionCoversList(Elements(namesAfter), policyNames);
    FirstHoldingSameBuckets(buckets, bucketsAfter, first, AllApplyPoints);
    var k := FirstHolding(buckets, first, AllApplyPoints).value;
    var p := AllApplyPoints[k];
    IntersectionCoversList(BucketAt(buckets, p).Keys, policyNames);
    IntersectionCoversList(BucketAt(bucketsAfter, p).Keys, policyNames);
  }

  /** register's `options.defaultApplyPoint || 'onPreHandler'` and its
      assertion that the result is one of the six points. */
  function ConfiguredDefaultApplyPoint(configured: ApplyPointTag): (r: Result<ApplyPoint, Thrown>)
    ensures !IsTruthy(configured) ==> r == Ok(OnPreHandler)
    ensures IsTruthy(configured) ==> (r.Ok? <==> exists p: ApplyPoint :: Name(p) == configured.value)
    ensures IsTruthy(configured) && r.Ok? ==> Name(r.value) == configured.value
    ensures r.Err? ==> r.error == PlainError("Specified invalid defaultApplyPoint: " + configured.value)
  {
    if !IsTruthy(configured) then Ok(OnPreHandler)
    else match Parse(configured.value)
      case Some(p) => Ok(p)
      case None => Err(PlainError("Specified invalid defaultApplyPoint: " + configured.value))
  }

  /** The plugin options addPolicy reads. `register` fails unless
      `ConfiguredDefaultApplyPoint` succeeds, so the default a registered
      plugin holds is always one of the six points, as the type says. */
  datatype Options = Options(defaultApplyPoint: ApplyPoint, ignoreDuplicates: bool)

  /** `policy.applyPoint || options.defaultApplyPoint` for a valid tag. */
  function StoredApplyPoint(t: ApplyPointTag, defaultApplyPoint: ApplyPoint): (r: ApplyPoint)
    requires HasValidApplyPoint(t)
    ensures IsTruthy(t) ==> Name(r) == t.value
    ensures !IsTruthy(t) ==> r == defaultApplyPoint
  {
    if IsTruthy(t) then TaggedApplyPoint(t) else defaultApplyPoint
  }

  /** The apply points of `points` that get a handler wired when the ones in
      `wired` already have one: each unwired point once, at its first
      occurrence. */
  function NewlyWired(wired: set<ApplyPoint>, points: seq<ApplyPoint>): seq<ApplyPoint>
    decreases |points|
  {
    if |points| == 0 then []
    else
      var prefix := points[..|points| - 1];
      var p := points[|points| - 1];
      if p in wired || p in prefix then NewlyWired(wired, prefix)
      else NewlyWired(wired, prefix) + [p]
  }

  /** Wiring `points` never wires a point twice, nor one already wired, and
      leaves every listed point wired. */
  lemma {:induction false} NewlyWiredOnce(wired: set<ApplyPoint>, points: seq<ApplyPoint>)
    ensures NoDup(NewlyWired(wired, points))
    ensures forall p :: p in NewlyWired(wired, points) <==> p in points && p !in wired
    decreases |points|
  {
    if |points| > 0 {
      var prefix := points[..|points| - 1];
      var p := points[|points| - 1];
      NewlyWiredOnce(wired, prefix);
      assert points == prefix + [p];
    }
  }

  /** Storing a new policy under an apply point its tag allows keeps the
      registry consistent. */
  lemma AddKeepsConsistent(names: seq<string>, rawPolicies: map<string, Policy>, buckets: Buckets,
                           name: string, policy: Policy, p: ApplyPoint)
    requires Consistent(names, rawPolicies, buckets)
    requires name !in rawPolicies
    requires StoredUnder(policy.applyPoint, p)
    ensures Consistent(names + [name], rawPolicies[name := policy], buckets[p := BucketAt(buckets, p)[name := policy]])
  {
    var namesAfter, rawAfter, bucketsAfter := names + [name], rawPolicies[name := policy], buckets[p := BucketAt(buckets, p)[name := policy]];
    BucketGrows(buckets, name, policy, p);
    assert NoDup(namesAfter) by {
      forall i, j | 0 <= i < j < |namesAfter| ensures namesAfter[i] != namesAfter[j] {
        if j == |names| { assert namesAfter[i] == names[i] && names[i] in rawPolicies; }
      }
    }
    assert forall n :: n in rawAfter <==> n in namesAfter by {
      assert forall n :: n in namesAfter <==> n in names || n == name;
    }
    AddKeepsBucketsAgree(rawPolicies, buckets, name, policy, p);
    forall n | n in rawAfter ensures exists q :: n in BucketAt(bucketsAfter, q) {
      if n == name {
        assert n in BucketAt(bucketsAfter, p);
      } else {
        var q :| n in BucketAt(buckets, q);
        assert n in BucketAt(bucketsAfter, q);
      }
    }
  }

  /** Adding `name` to `p`'s bucket adds it there and nowhere else. */
  lemma BucketGrows(buckets: Buckets, name: string, policy: Policy, p: ApplyPoint)
    ensures var bucketsAfter := buckets[p := BucketAt(buckets, p)[name := policy]];
      && (forall q, n :: n in BucketAt(bucketsAfter, q) <==> n in BucketAt(buckets, q) || (q == p && n == name))
      && (forall q, n :: n in BucketAt(buckets, q) && n != name ==> BucketAt(bucketsAfter, q)[n] == BucketAt(buckets, q)[n])
      && BucketAt(bucketsAfter, p)[name] == policy
  {
  }

  lemma AddKeepsBucketsAgree(rawPolicies: map<string, Policy>, buckets: Buckets, name: string, policy: Policy, p: ApplyPoint)
    requires BucketsAgree(rawPolicies, buckets) && BucketsDisjoint(buckets)
    requires name !in rawPolicies
    requires StoredUnder(policy.applyPoint, p)
    ensures var bucketsAfter := buckets[p := BucketAt(buckets, p)[name := policy]];
      BucketsAgree(rawPolicies[name := policy], bucketsAfter) && BucketsDisjoint(bucketsAfter)
  {
    var rawAfter, bucketsAfter := rawPolicies[name := policy], buckets[p := BucketAt(buckets, p)[name := policy]];
    BucketGrows(buckets, name, policy, p);
    forall q, n | n in BucketAt(bucketsAfter, q)
      ensures n in rawAfter && BucketAt(bucketsAfter, q)[n] == rawAfter[n] && StoredUnder(rawAfter[n].applyPoint, q)
    {
      if n == name {
        assert q == p;
      }
    }
  }

  class PolicyRegistry {
    var names: seq<string>
    var rawPolicies: map<string, Policy>
    var buckets: Buckets
    var setHandlers: set<ApplyPoint>
    /** The apply points handed to the host's `server.ext` since the last
        reset, in order. */
    ghost var wired: seq<ApplyPoint>

    /** The registry is consistent, every apply point that holds a policy
        has its handler wired, and no apply point was wired twice. */
    ghost predicate Valid()
      reads this
    {
      && Consistent(names, rawPolicies, buckets)
      && (forall p, n :: n in BucketAt(buckets, p) ==> p in setHandlers)
      && NoDup(wired)
      && (forall p :: p in wired <==> p in setHandlers)
    }

    constructor ()
      ensures Valid()
      ensures names == [] && rawPolicies == map[] && setHandlers == {} && wired == []
      ensures forall p :: BucketAt(buckets, p) == map[]
    {
      names := [];
      rawPolicies := map[];
      buckets := EmptyBuckets();
      setHandlers := {};
      wired := [];
    }

    /** hasPolicy. */
    function HasPolicy(name: string): (r: bool)
      reads this
      requires Valid()
      ensures r <==> name in rawPolicies
      ensures r <==> exists p :: name in BucketAt(buckets, p)
    {
      name in names
    }

    /** addPolicy: reject or ignore a duplicate, reject an unknown apply
        point, silently skip a policy whose apply point is defined but falsy,
        and otherwise store the policy and wire its apply point's handler
        unless that was already done. `ext` is the `server.ext` call made. */
    method AddPolicy(name: string, policy: Policy, options: Options)
      returns (err: Option<Thrown>, ext: Option<ApplyPoint>)
      requires Valid()
      modifies this
      ensures Valid()
      ensures old(HasPolicy(name)) ==>
        && unchanged(this) && ext == None
        && err == if options.ignoreDuplicates then None
                  else Some(PlainError("Trying to add a duplicate policy: " + name))
      ensures !old(HasPolicy(name)) && !HasValidApplyPoint(policy.applyPoint) ==>
        && unchanged(this) && ext == None
        && err == Some(PlainError("Trying to set incorrect applyPoint for the policy: " + policy.applyPoint.value))
      ensures !old(HasPolicy(name)) && policy.applyPoint == Defined("") ==>
        unchanged(this) && ext == None && err == None
      ensures !old(HasPolicy(name)) && HasValidApplyPoint(policy.applyPoint) && policy.applyPoint != Defined("") ==>
        var p := StoredApplyPoint(policy.applyPoint, options.defaultApplyPoint);
        && err == None && HasPolicy(name)
        && names == old(names) + [name]
        && rawPolicies == old(rawPolicies)[name := policy]
        && buckets == old(buckets)[p := old(BucketAt(buckets, p))[name := policy]]
        && setHandlers == old(setHandlers) + {p}
        && ext == (if p in old(setHandlers) then None else Some(p))
    {
      ext := None;
      if name in names {
        if options.ignoreDuplicates {
          err := None;
          return;
        }
        err := Some(PlainError("Trying to add a duplicate policy: " + name));
        return;
      }
      if !HasValidApplyPoint(policy.applyPoint) {
        err := Some(PlainError("Trying to set incorrect applyPoint for the policy: " + policy.applyPoint.value));
        return;
      }
      err := None;
      if policy.applyPoint == Undefined || IsTruthy(policy.applyPoint) {
        var p := StoredApplyPoint(policy.applyPoint, options.defaultApplyPoint);
        assert StoredUnder(policy.applyPoint, p);
        buckets := buckets[p := BucketAt(buckets, p)[name := policy]];
        rawPolicies := rawPolicies[name := policy];
        names := names + [name];
        AddKeepsConsistent(old(names), old(rawPolicies), old(buckets), name, policy, p);
        BucketGrows(old(buckets), name, policy, p);
        if p !in setHandlers {
          ext := Some(p);
          setHandlers := setHandlers + {p};
          assert p !in wired;
          wired := wired + [p];
          assert NoDup(wired);
        }
        assert forall q, n :: n in BucketAt(buckets, q) ==> q in setHandlers;
      }
    }

    /** reset: empty every list, map and flag. The memo cache of
        determineAggregateApplyPoint is cleared with it; in this model the
        inference is recomputed from the registry and needs no cache. */
    method Reset()
      modifies this
      ensures Valid()
      ensures names == [] && rawPolicies == map[] && setHandlers == {} && wired == []
      ensures forall p :: BucketAt(buckets, p) == map[]
      ensures forall name :: !HasPolicy(name)
    {
      names := [];
      rawPolicies := map[];
      buckets := EmptyBuckets();
      setHandlers := {};
      wired := [];
    }

    /** The `watchApplyPoints` loop of register: wire the handler of every
        listed apply point that is not wired yet. `ext` lists the
        `server.ext` calls made, in order. */
    method WatchApplyPoints(points: seq<ApplyPoint>) returns (ext: seq<ApplyPoint>)
      requires Valid()
      modifies this
      ensures Valid()
      ensures ext == NewlyWired(old(setHandlers), points)
      ensures setHandlers == old(setHandlers) + Elements(points)
      ensures wired == old(wired) + ext
      ensures names == old(names) && rawPolicies == old(rawPolicies) && buckets == old(buckets)
    {
      ext := [];
      var i := 0;
      while i < |points|
        invariant 0 <= i <= |points|
        invariant ext == NewlyWired(old(setHandlers), points[..i])
        invariant setHandlers == old(setHandlers) + Elements(points[..i])
        invariant wired == old(wired) + ext
        invariant names == old(names) && rawPolicies == old(rawPolicies) && buckets == old(buckets)
        invariant Valid()
      {
        var p := points[i];
        assert points[..i + 1][..i] == points[..i];
        NewlyWiredOnce(old(setHandlers), points[..i]);
        if p !in setHandlers {
          ext := ext + [p];
          setHandlers := setHandlers + {p};
          wired := wired + [p];
        }
        assert Elements(points[..i + 1]) == Elements(points[..i]) + {p};
        i := i + 1;
      }
      assert points[..i] == points;
    }
  }
}
