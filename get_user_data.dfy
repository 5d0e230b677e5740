/** The read handler: one settlement by key, or every settlement of the caller.
    It only reads the table, so it is a function of the table's contents. */
module GetUserData {
  import opened Events
  import opened Identity
  import opened Storage
  import opened Responses

  /** `lambda_handler` of the read function. `fault` stands for the store
      raising an error on the get or the query. */
  function LambdaHandler(items: Items, event: Value, fault: bool): (r: Response)
    ensures r.statusCode in {200, 401, 404, 500}
    // identity is resolved first: without a usable `sub` the settlement id is never looked at
    ensures ExtractUserId(event).Raised? && ExtractUserId(event).exc.ValueError? ==>
      r == Response(401, Error(MissingUserId))
    ensures r.statusCode == 401 <==> ExtractUserId(event).Raised? && ExtractUserId(event).exc.ValueError?
    ensures r.statusCode == 500 ==> r.body == Error(InternalError)
    ensures fault ==> r.statusCode != 200 && r.statusCode != 404
    // a claim path or path parameters that `.get` cannot walk, or a store error: 500
    ensures ExtractUserId(event).Raised? && ExtractUserId(event).exc.OtherError? ==>
      r == Response(500, Error(InternalError))
    ensures ExtractUserId(event).Ok? && SettlementIdParam(event).Raised? ==>
      r == Response(500, Error(InternalError))
    ensures ExtractUserId(event).Ok? && SettlementIdParam(event).Ok? && fault ==>
      r == Response(500, Error(InternalError))
    // data is only ever returned to an identified caller, after a store call that succeeded
    ensures r.statusCode in {200, 404} ==> ExtractUserId(event).Ok? && SettlementIdParam(event).Ok? && !fault
    // a single item: found or 404
    ensures ExtractUserId(event).Ok? && SettlementIdParam(event).Ok? && Truthy(SettlementIdParam(event).value) && !fault ==>
      var key := Key(ExtractUserId(event).value, SettlementIdParam(event).value);
      (key in items ==> r == Response(200, Record(items[key]))) &&
      (key !in items ==> r == Response(404, Error(SettlementNotFound)))
    // no settlement id: every item of the caller's partition and nothing else
    ensures ExtractUserId(event).Ok? && SettlementIdParam(event).Ok? && !Truthy(SettlementIdParam(event).value) && !fault ==>
      r.statusCode == 200 && r.body.Records? &&
      (forall k :: k in items && k.userId == ExtractUserId(event).value ==> items[k] in r.body.items) &&
      (WellFormed(items) ==> forall it :: it in r.body.items ==> it in items.Values && it.userId == ExtractUserId(event).value)
    // whatever is returned belongs to the caller
    ensures WellFormed(items) && r.statusCode == 200 && r.body.Record? ==>
      ExtractUserId(event).Ok? && r.body.item.userId == ExtractUserId(event).value && r.body.item in items.Values
  {
    match ExtractUserId(event)
    case Raised(e) => FromException(e)
    case Ok(userId) =>
      match SettlementIdParam(event)
      case Raised(e) => FromException(e)
      case Ok(settlementId) =>
        if fault then FromException(OtherError)
        else if Truthy(settlementId) then
          var key := Key(userId, settlementId);
          if key in items then Response(200, Record(items[key]))
          else Response(404, Error(SettlementNotFound))
        else
          Response(200, Records(Query(items, userId)))
  }
}
