/** Values that flow out of policies and out of the engine: what a policy
    returns or throws, and how a thrown value is normalised into a Boom error
    before it leaves a stage (negotiateError in lib/index.js). */
module Outcomes {

  datatype Option<+T> = None | Some(value: T)

  datatype Result<+T, +E> = Ok(value: T) | Err(error: E)

  /** Opaque identity of a policy function; its behaviour comes from an oracle. */
  type PolicyId = nat

  /** HTTP status codes the engine produces itself. */
  const Forbidden: int := 403
  const BadImplementation: int := 500
  const NotImplemented: int := 501

  /** A value thrown by a policy, by an aggregate's error handler or by the engine. */
  datatype Thrown =
    | BoomError(status: int, message: string)  // an Error already decorated by Boom
    | PlainError(message: string)              // any other Error instance
    | NonError(value: string)                  // a thrown string or other non-Error value

  /** What a policy returns when it does not throw: the host's continue
      signal, or any other value, which becomes the stage's response. */
  datatype Reply = Continue | Respond(response: nat)

  /** How one invocation of a policy settles. */
  datatype Settled = Returns(reply: Reply) | Throws(err: Thrown)

  /** The human-readable reason a thrown value carries. */
  function Reason(e: Thrown): string {
    match e
    case BoomError(_, m) => m
    case PlainError(m) => m
    case NonError(v) => v
  }

  /** negotiateError: every thrown value leaves as a Boom error that keeps
      its reason; a status it already had is kept, anything else is 403. */
  function NegotiateError(e: Thrown): (r: Thrown)
    ensures r.BoomError?
    ensures r.message == Reason(e)
    ensures r.status == if e.BoomError? then e.status else Forbidden
    ensures e.BoomError? ==> r == e
  {
    match e
    case BoomError(_, _) => e
    case PlainError(m) => BoomError(Forbidden, m)   // Boom.boomify(err, { statusCode: 403 })
    case NonError(v) => BoomError(Forbidden, v)     // Boom.forbidden(err)
  }

  /** Negotiating twice is the same as negotiating once. */
  lemma NegotiateErrorIdempotent(e: Thrown)
    ensures NegotiateError(NegotiateError(e)) == NegotiateError(e)
  {
  }

  ghost predicate NoDup<T>(s: seq<T>) {
    forall i, j :: 0 <= i < j < |s| ==> s[i] != s[j]
  }

  /** The distinct values of a list, as lodash's set operations see them. */
  function Elements<T>(s: seq<T>): set<T> {
    set x | x in s
  }
}
