/** The write handler: a full-replace put of `{user_id, settlement_id, data,
    updated_at}` under the caller's key. */
module SaveUserData {
  import opened Events
  import opened Identity
  import opened Storage
  import opened Responses

  /** What `json.loads` does with a string: a value, or a JSONDecodeError with
      its message. The parser itself is a parameter of the model. */
  datatype ParseResult = Parsed(value: Value) | Malformed(message: string)

  /** `json.loads(event.get('body', '{}'))`: a missing body reads as `'{}'`; a
      body that is not a string (`None`, say) makes `json.loads` raise a
      TypeError; a JSONDecodeError is a ValueError. */
  function RequestBody(event: Value, parse: string -> ParseResult): (r: Result<Value>)
    ensures !event.Obj? ==> r == Raised(OtherError)
    // a body that is present but not a string: a TypeError
    ensures event.Obj? && "body" in event.fields && !event.fields["body"].Str? ==> r == Raised(OtherError)
    // the text parsed is the body, or `'{}'` when there is none
    ensures var text := Member(Some(event), "body").GetOr(Str("{}"));
      event.Obj? && text.Str? ==>
        && (parse(text.s).Parsed? ==> r == Ok(parse(text.s).value))
        && (parse(text.s).Malformed? ==> r == Raised(ValueError(parse(text.s).message)))
  {
    var raw :- Get(event, "body", Str("{}"));
    if !raw.Str? then Raised(OtherError)
    else match parse(raw.s)
      case Parsed(v) => Ok(v)
      case Malformed(m) => Raised(ValueError(m))
  }

  /** The settlement id the handler acts on: present and truthy. */
  predicate HasSettlementId(event: Value) {
    SettlementIdParam(event).Ok? && Truthy(SettlementIdParam(event).value)
  }

  /** The response and the new table contents of `lambda_handler`, given the
      table before the call, the clock reading `now`, the JSON parser and
      whether the put raises. */
  function Handle(items: Items, event: Value, now: string, parse: string -> ParseResult, fault: bool): (o: Outcome)
    ensures o.response.statusCode in {200, 400, 401, 500}
    // every path except success leaves the table as it was
    ensures o.response.statusCode != 200 ==> o.items == items
    ensures ExtractUserId(event).Raised? && ExtractUserId(event).exc.ValueError? ==>
      o == Outcome(Response(401, Error(MissingUserId)), items)
    // the settlement id is checked before the body is parsed
    ensures ExtractUserId(event).Ok? && SettlementIdParam(event).Ok? && !Truthy(SettlementIdParam(event).value) ==>
      o == Outcome(Response(400, Error(SettlementIdRequired)), items)
    // a malformed body is caught as a ValueError: 401 with the parser's message
    ensures ExtractUserId(event).Ok? && HasSettlementId(event) &&
            RequestBody(event, parse).Raised? && RequestBody(event, parse).exc.ValueError? ==>
      o == Outcome(Response(401, Error(RequestBody(event, parse).exc.message)), items)
    // the only 400 is the missing settlement id; the "Invalid JSON" clause never answers
    ensures o.response.statusCode == 400 ==> o.response.body == Error(SettlementIdRequired)
    ensures o.response.body != Error(InvalidJson) || RequestBody(event, parse) == Raised(ValueError(InvalidJson))
    ensures o.response.statusCode == 500 ==> o.response.body == Error(InternalError)
    // 401 only ever reports a missing `sub` or a malformed body
    ensures o.response.statusCode == 401 ==>
      || (ExtractUserId(event).Raised? && ExtractUserId(event).exc.ValueError?)
      || (ExtractUserId(event).Ok? && HasSettlementId(event) &&
          RequestBody(event, parse).Raised? && RequestBody(event, parse).exc.ValueError?)
    // an event `.get` cannot walk, a body that is not a string, or a store error: 500
    ensures ExtractUserId(event).Raised? && ExtractUserId(event).exc.OtherError? ==>
      o == Outcome(Response(500, Error(InternalError)), items)
    ensures ExtractUserId(event).Ok? && SettlementIdParam(event).Raised? ==>
      o == Outcome(Response(500, Error(InternalError)), items)
    ensures ExtractUserId(event).Ok? && HasSettlementId(event) &&
            RequestBody(event, parse).Raised? && RequestBody(event, parse).exc.OtherError? ==>
      o == Outcome(Response(500, Error(InternalError)), items)
    ensures ExtractUserId(event).Ok? && HasSettlementId(event) && RequestBody(event, parse).Ok? && fault ==>
      o == Outcome(Response(500, Error(InternalError)), items)
    ensures o.response.statusCode == 200 <==>
      ExtractUserId(event).Ok? && HasSettlementId(event) && RequestBody(event, parse).Ok? && !fault
    // success: the caller's entry is replaced outright, the response echoes the key
    ensures o.response.statusCode == 200 ==>
      var userId := ExtractUserId(event).value;
      var settlementId := SettlementIdParam(event).value;
      && o.response == Response(200, Ack(DataSaved, userId, settlementId))
      && Key(userId, settlementId) in o.items
      && o.items[Key(userId, settlementId)] == Item(userId, settlementId, RequestBody(event, parse).value, now)
      && (forall k :: k in items && k != Key(userId, settlementId) ==> k in o.items && o.items[k] == items[k])
      && (forall k :: k in o.items ==> k in items || k == Key(userId, settlementId))
    // entries of any other user are never touched, nor created
    ensures forall k :: k in items && ExtractUserId(event) != Ok(k.userId) ==> k in o.items && o.items[k] == items[k]
    ensures forall k :: k in o.items && ExtractUserId(event) != Ok(k.userId) ==> k in items
    ensures WellFormed(items) ==> WellFormed(o.items)
  {
    match ExtractUserId(event)
    case Raised(e) => Outcome(FromException(e), items)
    case Ok(userId) =>
      match SettlementIdParam(event)
      case Raised(e) => Outcome(FromException(e), items)
      case Ok(settlementId) =>
        if !Truthy(settlementId) then Outcome(Response(400, Error(SettlementIdRequired)), items)
        else match RequestBody(event, parse)
          case Raised(e) => Outcome(FromException(e), items)
          case Ok(data) =>
            if fault then Outcome(FromException(OtherError), items)
            else
              var item := Item(userId, settlementId, data, now);
              Outcome(Response(200, Ack(DataSaved, userId, settlementId)), items[item.KeyOf() := item])
  }

  /** `lambda_handler` of the write function, on the shared table. */
  method LambdaHandler(table: Table, event: Value, now: string, parse: string -> ParseResult, fault: bool)
    returns (r: Response)
    requires table.Valid()
    modifies table
    ensures table.Valid()
    ensures Outcome(r, table.items) == Handle(old(table.items), event, now, parse, fault)
  {
    var user := ExtractUserId(event);
    if user.Raised? {
      return FromException(user.exc);
    }
    var settlementId := SettlementIdParam(event);
    if settlementId.Raised? {
      return FromException(settlementId.exc);
    }
    if !Truthy(settlementId.value) {
      return Response(400, Error(SettlementIdRequired));
    }
    var body := RequestBody(event, parse);
    if body.Raised? {
      return FromException(body.exc);
    }
    var item := Item(user.value, settlementId.value, body.value, now);
    var ok := table.PutItem(item, fault);
    if !ok {
      return FromException(OtherError);
    }
    r := Response(200, Ack(DataSaved, user.value, settlementId.value));
  }
}
