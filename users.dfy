/** Resolving a username to the platform's numeric user id. */
module Users {
  import opened Data

  /** The two ways a lookup fails; each carries the username for the message. */
  datatype UserError = LookupFailed(username: string) | NotFound(username: string)

  /** `get_user_id`: one batch lookup for `username`, answered by `res`.
      It succeeds exactly when the status is 200 and the result list is non-empty,
      and then yields the first entry's id. */
  function GetUserId(username: string, res: UserLookup): (r: Result<UserId, UserError>)
    ensures r.Success? <==> res.status == 200 && |res.ids| > 0
    ensures r.Success? ==> r.value == res.ids[0]
    ensures res.status != 200 ==> r == Failure(LookupFailed(username))
    ensures res.status == 200 && res.ids == [] ==> r == Failure(NotFound(username))
  {
    if res.status != 200 then Failure(LookupFailed(username))
    else if |res.ids| == 0 then Failure(NotFound(username))
    else Success(res.ids[0])
  }
}
