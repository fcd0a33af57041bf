/** The six fixed points of the host's request lifecycle at which policies
    run (_applyPoints), and the applyPoint tag a policy function may carry. */
module ApplyPoints {
  import opened Outcomes

  datatype ApplyPoint =
    | OnRequest | OnPreAuth | OnPostAuth | OnPreHandler | OnPostHandler | OnPreResponse

  /** The apply points in lifecycle order, the order searched when an
      aggregate's apply point is inferred. */
  const AllApplyPoints: seq<ApplyPoint> :=
    [OnRequest, OnPreAuth, OnPostAuth, OnPreHandler, OnPostHandler, OnPreResponse]

  /** The host's name for an apply point. */
  function Name(p: ApplyPoint): string {
    match p
    case OnRequest => "onRequest"
    case OnPreAuth => "onPreAuth"
    case OnPostAuth => "onPostAuth"
    case OnPreHandler => "onPreHandler"
    case OnPostHandler => "onPostHandler"
    case OnPreResponse => "onPreResponse"
  }

  /** `_applyPoints.indexOf(s) !== -1`, returning the point found. */
  function Parse(s: string): (r: Option<ApplyPoint>)
    ensures r.Some? ==> Name(r.value) == s
    ensures r.None? <==> forall p: ApplyPoint :: Name(p) != s
  {
    if s == "onRequest" then Some(OnRequest)
    else if s == "onPreAuth" then Some(OnPreAuth)
    else if s == "onPostAuth" then Some(OnPostAuth)
    else if s == "onPreHandler" then Some(OnPreHandler)
    else if s == "onPostHandler" then Some(OnPostHandler)
    else if s == "onPreResponse" then Some(OnPreResponse)
    else None
  }

  /** Every apply point is listed, and listed once. */
  lemma AllApplyPointsComplete(p: ApplyPoint)
    ensures p in AllApplyPoints
    ensures NoDup(AllApplyPoints)
  {
  }

  lemma EveryApplyPointListed()
    ensures forall p: ApplyPoint :: p in AllApplyPoints
  {
    forall p: ApplyPoint ensures p in AllApplyPoints {
      AllApplyPointsComplete(p);
    }
  }

  /** Parsing a point's name gives the point back. */
  lemma ParseName(p: ApplyPoint)
    ensures Parse(Name(p)) == Some(p)
  {
  }

  /** The `applyPoint` property of a policy function. `Defined("")` stands
      for every value JavaScript treats as false (empty string, null, 0,
      false); a truthy value is a string. A truthy value that is not a
      string never equals an apply point's name and is left out. */
  datatype ApplyPointTag = Undefined | Defined(value: string)

  predicate IsTruthy(t: ApplyPointTag) {
    t.Defined? && t.value != ""
  }

  /** hasValidApplyPoint: a tag that is absent or falsy, or that names one
      of the six points. */
  function HasValidApplyPoint(t: ApplyPointTag): (r: bool)
    ensures r <==> !IsTruthy(t) || exists p: ApplyPoint :: Name(p) == t.value
  {
    !IsTruthy(t) || Parse(t.value).Some?
  }

  /** The apply point a tag names; only asked of a truthy, valid tag. */
  function TaggedApplyPoint(t: ApplyPointTag): (r: ApplyPoint)
    requires IsTruthy(t) && HasValidApplyPoint(t)
    ensures Name(r) == t.value
  {
    Parse(t.value).value
  }
}
