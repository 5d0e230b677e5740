/** `extract_user_id`, identical in the three handlers: the caller is the
    `sub` claim that the gateway's authorizer placed under
    `requestContext.authorizer.claims`. */
module Identity {
  import opened Events

  const MissingUserId := "User ID not found in authorization context"

  /** The levels on the way to the claim, looked up strictly. */
  ghost function Context(event: Value): Option<Value> { Member(Some(event), "requestContext") }
  ghost function Authorizer(event: Value): Option<Value> { Member(Context(event), "authorizer") }
  ghost function Claims(event: Value): Option<Value> { Member(Authorizer(event), "claims") }
  ghost function Sub(event: Value): Option<Value> { Member(Claims(event), "sub") }

  /** Some level on the way to the claim set is present but is not a dict
      (the event itself, `requestContext`, `authorizer` or `claims`), so one of
      the chained `.get` calls raises an AttributeError. */
  ghost predicate BrokenClaimPath(event: Value) {
    !event.Obj? || NonDict(Context(event)) || NonDict(Authorizer(event)) || NonDict(Claims(event))
  }

  /** Each missing level defaults to `{}`, a missing `sub` to `None`; a falsy
      `sub` raises the ValueError that the handlers turn into 401. */
  function ExtractUserId(event: Value): (r: Result<Value>)
    ensures r.Ok? <==> !BrokenClaimPath(event) && Sub(event).Some? && Truthy(Sub(event).value)
    ensures r.Ok? ==> Sub(event) == Some(r.value) && Truthy(r.value)
    ensures r.Raised? ==> (r.exc.OtherError? <==> BrokenClaimPath(event))
    ensures r.Raised? && r.exc.ValueError? ==> r.exc.message == MissingUserId
  {
    var context :- Get(event, "requestContext", Obj(map[]));
    var authorizer :- Get(context, "authorizer", Obj(map[]));
    var claims :- Get(authorizer, "claims", Obj(map[]));
    var sub :- Get(claims, "sub", Null);
    if Truthy(sub) then Ok(sub) else Raised(ValueError(MissingUserId))
  }
}
