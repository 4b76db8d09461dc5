/**
 * The response check shared by `queryDatabase` and `getAzureBlobUrl`: the
 * HTTP call itself is left out, and the response is given as its `ok` flag
 * and its decoded JSON body.
 */
module Transport {
  import opened JsValues

  /** The two errors the check throws, by their fixed messages. */
  datatype Error =
    | FailedToGetQuery   // "Failed to get query"
    | NoResultSet        // "No result set"

  datatype Result<T> = Success(value: T) | Failure(error: Error)

  /** What the transport delivers: the status flag and the body it would decode. */
  datatype Response = Response(ok: bool, body: Json)

  /** A body the check accepts: a JavaScript object, which includes arrays. */
  predicate IsResultSet(j: Json)
  {
    j.Arr? || j.Obj?
  }

  /**
   * The status is checked first, then the body; a body that passes both is
   * returned unchanged.  The contract states the outcome for every response
   * without reference to truthiness or `typeof`.
   */
  function CheckResponse(resp: Response): (r: Result<Json>)
    ensures !resp.ok ==> r == Failure(FailedToGetQuery)
    ensures resp.ok && !IsResultSet(resp.body) ==> r == Failure(NoResultSet)
    ensures resp.ok && IsResultSet(resp.body) ==> r == Success(resp.body)
  {
    if !resp.ok then
      Failure(FailedToGetQuery)
    else if !Truthy(resp.body) || TypeOf(Defined(resp.body)) != "object" then
      Failure(NoResultSet)
    else
      Success(resp.body)
  }

  /** A non-OK status fails the same way whatever the body is. */
  lemma StatusCheckedFirst(b1: Json, b2: Json)
    ensures CheckResponse(Response(false, b1)) == CheckResponse(Response(false, b2))
    ensures CheckResponse(Response(false, b1)).Failure?
  {
  }

  /** A successful check yields exactly the body, and only for an OK status. */
  lemma SuccessIsUnchangedBody(resp: Response)
    ensures CheckResponse(resp).Success? <==> resp.ok && IsResultSet(resp.body)
    ensures CheckResponse(resp).Success? ==> CheckResponse(resp).value == resp.body
  {
  }

  /**
   * `null` passes the `typeof` test but is rejected by the falsy test, and
   * an empty array or object is truthy and accepted.
   */
  lemma NullAndEmptyCollections()
    ensures CheckResponse(Response(true, Null)) == Failure(NoResultSet)
    ensures CheckResponse(Response(true, Arr([]))) == Success(Arr([]))
    ensures CheckResponse(Response(true, Obj(map[]))) == Success(Obj(map[]))
  {
  }
}
