/** The delete handler: an unconditional remove of the caller's key, with no
    check that the key was there. */
module DeleteUserData {
  import opened Events
  import opened Identity
  import opened Storage
  import opened Responses

  /** The response and the new table contents of `lambda_handler`, given the
      table before the call and whether the delete raises. */
  function Handle(items: Items, event: Value, fault: bool): (o: Outcome)
    ensures o.response.statusCode in {200, 400, 401, 500}
    ensures o.response.statusCode != 200 ==> o.items == items
    ensures ExtractUserId(event).Raised? && ExtractUserId(event).exc.ValueError? ==>
      o == Outcome(Response(401, Error(MissingUserId)), items)
    ensures ExtractUserId(event).Ok? && SettlementIdParam(event).Ok? && !Truthy(SettlementIdParam(event).value) ==>
      o == Outcome(Response(400, Error(SettlementIdRequired)), items)
    ensures o.response.statusCode == 500 ==> o.response.body == Error(InternalError)
    // 401 only ever reports a missing `sub`
    ensures o.response.statusCode == 401 ==> ExtractUserId(event).Raised? && ExtractUserId(event).exc.ValueError?
    // an event `.get` cannot walk, or a store error: 500
    ensures ExtractUserId(event).Raised? && ExtractUserId(event).exc.OtherError? ==>
      o == Outcome(Response(500, Error(InternalError)), items)
    ensures ExtractUserId(event).Ok? && SettlementIdParam(event).Raised? ==>
      o == Outcome(Response(500, Error(InternalError)), items)
    ensures ExtractUserId(event).Ok? && SettlementIdParam(event).Ok? && Truthy(SettlementIdParam(event).value) && fault ==>
      o == Outcome(Response(500, Error(InternalError)), items)
    // success does not depend on whether the key was stored
    ensures o.response.statusCode == 200 <==>
      ExtractUserId(event).Ok? && SettlementIdParam(event).Ok? && Truthy(SettlementIdParam(event).value) && !fault
    ensures o.response.statusCode == 200 ==>
      var userId := ExtractUserId(event).value;
      var settlementId := SettlementIdParam(event).value;
      && o.response == Response(200, Ack(DataDeleted, userId, settlementId))
      && Key(userId, settlementId) !in o.items
      && (forall k :: k in items && k != Key(userId, settlementId) ==> k in o.items && o.items[k] == items[k])
      && (forall k :: k in o.items ==> k in items)
    // entries of any other user are never removed
    ensures forall k :: k in items && ExtractUserId(event) != Ok(k.userId) ==> k in o.items && o.items[k] == items[k]
    ensures forall k :: k in o.items ==> k in items && o.items[k] == items[k]
  {
    match ExtractUserId(event)
    case Raised(e) => Outcome(FromException(e), items)
    case Ok(userId) =>
      match SettlementIdParam(event)
      case Raised(e) => Outcome(FromException(e), items)
      case Ok(settlementId) =>
        if !Truthy(settlementId) then Outcome(Response(400, Error(SettlementIdRequired)), items)
        else if fault then Outcome(FromException(OtherError), items)
        else Outcome(Response(200, Ack(DataDeleted, userId, settlementId)), items - {Key(userId, settlementId)})
  }

  /** `lambda_handler` of the delete function, on the shared table. */
  method LambdaHandler(table: Table, event: Value, fault: bool) returns (r: Response)
    requires table.Valid()
    modifies table
    ensures table.Valid()
    ensures Outcome(r, table.items) == Handle(old(table.items), event, fault)
  {
    var user := ExtractUserId(event);
    if user.Raised? {
      return FromException(user.exc);
    }
    var settlementId := SettlementIdParam(event);
    if settlementId.Raised? {
      return FromException(settlementId.exc);
    }
    if !Truthy(settlementId.value) {
      return Response(400, Error(SettlementIdRequired));
    }
    var ok := table.DeleteItem(Key(user.value, settlementId.value), fault);
    if !ok {
      return FromException(OtherError);
    }
    r := Response(200, Ack(DataDeleted, user.value, settlementId.value));
  }
}
