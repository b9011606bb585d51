/** How `upload` reacts to the reply to each of its two requests: a success
    status goes on, a client error reports the reply body, a server error or a
    missing reply reports a fixed "try again later", any other status goes on
    silently. */
module HttpStatus {
  import opened Outcomes

  /** A status code as the `http` crate holds it: three digits. */
  type StatusCode = c: int | 100 <= c <= 999 witness 200

  /** The reply to a request: none at all, or a status with a body whose
      reading may fail (`None`). */
  datatype Reply = TransportFailure | Response(status: StatusCode, body: Option<string>)

  /** The `http` crate's status predicates. */
  predicate IsSuccess(c: StatusCode) { 200 <= c <= 299 }
  predicate IsClientError(c: StatusCode) { 400 <= c <= 499 }
  predicate IsServerError(c: StatusCode) { 500 <= c <= 599 }

  /** The class of a status: its first digit (section 15 of RFC 9110). */
  function StatusClass(c: StatusCode): (d: int)
    ensures 1 <= d <= 9
    ensures d * 100 <= c < d * 100 + 100
  {
    c / 100
  }

  /** The three predicates test the first digit of the status, and no status
      satisfies two of them. */
  lemma StatusPredicatesByClass(c: StatusCode)
    ensures IsSuccess(c) <==> StatusClass(c) == 2
    ensures IsClientError(c) <==> StatusClass(c) == 4
    ensures IsServerError(c) <==> StatusClass(c) == 5
    ensures !(IsSuccess(c) && IsClientError(c)) && !(IsSuccess(c) && IsServerError(c))
    ensures !(IsClientError(c) && IsServerError(c))
  {
  }

  /** The error with which a phase ends, or `None` when the command goes on. */
  function PhaseError(reply: Reply): (e: Option<UploadError>)
    ensures reply.TransportFailure? ==> e == Some(ServerError)
    ensures reply.Response? && StatusClass(reply.status) == 2 ==>
      e == (if reply.body.Some? then None else Some(BodyUnreadable))
    ensures reply.Response? && StatusClass(reply.status) == 4 ==>
      e == (if reply.body.Some? then Some(ClientError(reply.body.value)) else Some(BodyUnreadable))
    ensures reply.Response? && StatusClass(reply.status) == 5 ==> e == Some(ServerError)
    ensures reply.Response? && StatusClass(reply.status) !in {2, 4, 5} ==> e == None
  {
    match reply
    case TransportFailure => Some(ServerError)
    case Response(status, body) =>
      if IsSuccess(status) then
        (if body.Some? then None else Some(BodyUnreadable))
      else if IsClientError(status) then
        (match body
         case Some(text) => Some(ClientError(text))
         case None => Some(BodyUnreadable))
      else if IsServerError(status) then Some(ServerError)
      else None
  }

  /** What the user is told: the reply body for a 4xx status, "try again later"
      for a 5xx status or a missing reply. */
  lemma PhaseErrorMessage(reply: Reply)
    requires PhaseError(reply).Some? && HasOwnMessage(PhaseError(reply).value)
    ensures reply.Response? && IsClientError(reply.status) ==>
      reply.body.Some? && Message(PhaseError(reply).value) == reply.body.value
    ensures reply.TransportFailure? || IsServerError(reply.status) ==>
      Message(PhaseError(reply).value) == TryAgainLater
    ensures reply.Response? ==> IsClientError(reply.status) || IsServerError(reply.status)
  {
  }

  /** The command goes on exactly after a 2xx reply whose body could be read, or
      after a status outside the 2xx, 4xx and 5xx classes. */
  lemma PhaseGoesOn(reply: Reply)
    ensures PhaseError(reply).None? <==>
      reply.Response? &&
      ((IsSuccess(reply.status) && reply.body.Some?) ||
       (!IsSuccess(reply.status) && !IsClientError(reply.status) && !IsServerError(reply.status)))
  {
  }
}
