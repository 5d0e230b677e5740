/** Properties that relate the three handlers through the table they share:
    write-then-read, delete-then-read, idempotence, and isolation between users
    over any sequence of requests. */
module Api {
  import opened Events
  import opened Identity
  import opened Storage
  import opened Responses
  import GetUserData
  import SaveUserData
  import DeleteUserData

  /** One invocation of one of the three functions, with the inputs the model
      takes from outside: the clock for a write, and whether the store raises. */
  datatype Request =
    | Read(event: Value, fault: bool)
    | Write(event: Value, now: string, fault: bool)
    | Remove(event: Value, fault: bool)

  /** The response to one request and the table afterwards. */
  function Apply(items: Items, req: Request, parse: string -> SaveUserData.ParseResult): (o: Outcome)
    ensures req.Read? ==> o.items == items
    ensures o.response.statusCode != 200 ==> o.items == items
    // every endpoint answers 401 to a caller without a usable `sub`, and changes nothing
    ensures ExtractUserId(req.event).Raised? && ExtractUserId(req.event).exc.ValueError? ==>
      o == Outcome(Response(401, Error(MissingUserId)), items)
    ensures forall k :: k in items && ExtractUserId(req.event) != Ok(k.userId) ==> k in o.items && o.items[k] == items[k]
    ensures forall k :: k in o.items && ExtractUserId(req.event) != Ok(k.userId) ==> k in items
    ensures WellFormed(items) ==> WellFormed(o.items)
  {
    match req
    case Read(event, fault) => Outcome(GetUserData.LambdaHandler(items, event, fault), items)
    case Write(event, now, fault) => SaveUserData.Handle(items, event, now, parse, fault)
    case Remove(event, fault) => DeleteUserData.Handle(items, event, fault)
  }

  /** The table after serving `reqs` one after the other. */
  function Replay(items: Items, reqs: seq<Request>, parse: string -> SaveUserData.ParseResult): (r: Items)
    ensures WellFormed(items) ==> WellFormed(r)
    ensures (forall i :: 0 <= i < |reqs| ==> reqs[i].Read?) ==> r == items
    decreases |reqs|
  {
    if reqs == [] then items
    else Replay(Apply(items, reqs[0], parse).items, reqs[1..], parse)
  }

  /** A request made by someone other than `userId` leaves `userId`'s partition
      exactly as it was. */
  lemma ApplyKeepsOtherPartitions(items: Items, req: Request, parse: string -> SaveUserData.ParseResult, userId: Value)
    requires ExtractUserId(req.event) != Ok(userId)
    ensures Partition(Apply(items, req, parse).items, userId) == Partition(items, userId)
  {
  }

  /** Isolation between users: however many requests other callers make, in
      whatever order and with whatever outcome, `userId`'s entries are neither
      changed nor removed, and none are added. */
  lemma {:induction false} ReplayKeepsOtherPartitions(
    items: Items, reqs: seq<Request>, parse: string -> SaveUserData.ParseResult, userId: Value)
    requires forall i :: 0 <= i < |reqs| ==> ExtractUserId(reqs[i].event) != Ok(userId)
    ensures Partition(Replay(items, reqs, parse), userId) == Partition(items, userId)
    decreases |reqs|
  {
    if reqs != [] {
      var next := Apply(items, reqs[0], parse).items;
      ApplyKeepsOtherPartitions(items, reqs[0], parse, userId);
      assert forall i :: 0 <= i < |reqs[1..]| ==> reqs[1..][i] == reqs[i + 1];
      ReplayKeepsOtherPartitions(next, reqs[1..], parse, userId);
    }
  }

  /** What the read handler returns to a caller depends only on that caller's
      partition of the table. */
  lemma ReadSeesOnlyOwnPartition(a: Items, b: Items, event: Value, fault: bool)
    requires ExtractUserId(event).Ok?
    requires Partition(a, ExtractUserId(event).value) == Partition(b, ExtractUserId(event).value)
    ensures GetUserData.LambdaHandler(a, event, fault) == GetUserData.LambdaHandler(b, event, fault)
  {
  }

  /** Nothing other callers do is visible to a caller's reads, whether of one
      settlement or of all of them. */
  lemma OthersAreInvisible(items: Items, reqs: seq<Request>, parse: string -> SaveUserData.ParseResult, event: Value, fault: bool)
    requires ExtractUserId(event).Ok?
    requires forall i :: 0 <= i < |reqs| ==> ExtractUserId(reqs[i].event) != ExtractUserId(event)
    ensures GetUserData.LambdaHandler(Replay(items, reqs, parse), event, fault) == GetUserData.LambdaHandler(items, event, fault)
  {
    ReplayKeepsOtherPartitions(items, reqs, parse, ExtractUserId(event).value);
    ReadSeesOnlyOwnPartition(Replay(items, reqs, parse), items, event, fault);
  }

  /** Write-then-read: after a successful save, a read of the same key by the
      same caller returns 200 with the saved body as `data`. */
  lemma SaveThenGet(items: Items, save: Value, now: string, parse: string -> SaveUserData.ParseResult, fault: bool, get: Value)
    requires SaveUserData.Handle(items, save, now, parse, fault).response.statusCode == 200
    requires ExtractUserId(get) == ExtractUserId(save) && SettlementIdParam(get) == SettlementIdParam(save)
    ensures var r := GetUserData.LambdaHandler(SaveUserData.Handle(items, save, now, parse, fault).items, get, false);
      && r.statusCode == 200
      && r.body == Record(Item(ExtractUserId(save).value, SettlementIdParam(save).value, r.body.item.data, now))
      && SaveUserData.RequestBody(save, parse) == Ok(r.body.item.data)
  {
  }

  /** After a successful save the caller's read-all holds the new item and,
      of the items stored before, exactly those with another settlement id. */
  lemma SaveThenQuery(items: Items, save: Value, now: string, parse: string -> SaveUserData.ParseResult, fault: bool)
    requires WellFormed(items)
    requires SaveUserData.Handle(items, save, now, parse, fault).response.statusCode == 200
    ensures var userId, settlementId := ExtractUserId(save).value, SettlementIdParam(save).value;
      Query(SaveUserData.Handle(items, save, now, parse, fault).items, userId) ==
        (set it | it in Query(items, userId) && it.settlementId != settlementId)
        + {Item(userId, settlementId, SaveUserData.RequestBody(save, parse).value, now)}
  {
  }

  /** Saving the same request twice leaves the table as saving it once with the
      later clock reading. */
  lemma SaveTwiceIsSaveOnce(items: Items, event: Value, first: string, second: string, parse: string -> SaveUserData.ParseResult)
    requires SaveUserData.Handle(items, event, first, parse, false).response.statusCode == 200
    ensures var once := SaveUserData.Handle(items, event, first, parse, false);
      && SaveUserData.Handle(once.items, event, second, parse, false) ==
         SaveUserData.Handle(items, event, second, parse, false)
  {
  }

  /** Two saves of the same request that differ only in the clock reading give
      tables equal up to `updated_at`. */
  lemma SaveIgnoresClockButTimestamp(items: Items, event: Value, first: string, second: string, parse: string -> SaveUserData.ParseResult)
    ensures var a := SaveUserData.Handle(items, event, first, parse, false).items;
      var b := SaveUserData.Handle(items, event, second, parse, false).items;
      && a.Keys == b.Keys
      && forall k :: k in a ==> a[k] == b[k].(updatedAt := a[k].updatedAt)
  {
  }

  /** An event without a `body` key stores the empty object. */
  lemma NoBodyStoresEmptyObject(items: Items, event: Value, now: string, parse: string -> SaveUserData.ParseResult)
    requires parse("{}") == SaveUserData.Parsed(Obj(map[]))
    requires event.Obj? && "body" !in event.fields
    requires ExtractUserId(event).Ok? && SaveUserData.HasSettlementId(event)
    ensures var o := SaveUserData.Handle(items, event, now, parse, false);
      && o.response.statusCode == 200
      && o.items[Key(ExtractUserId(event).value, SettlementIdParam(event).value)].data == Obj(map[])
  {
  }

  /** A `body` that is present but `null`, as the gateway sends for a request
      without one, makes `json.loads` raise a TypeError: 500, nothing stored. */
  lemma NullBodyIsInternalError(items: Items, event: Value, now: string, parse: string -> SaveUserData.ParseResult, fault: bool)
    requires event.Obj? && "body" in event.fields && event.fields["body"] == Null
    requires ExtractUserId(event).Ok? && SaveUserData.HasSettlementId(event)
    ensures SaveUserData.Handle(items, event, now, parse, fault) == Outcome(Response(500, Error(InternalError)), items)
  {
  }

  /** Delete-then-read: once a delete has succeeded, the same caller's read of
      that key is a 404. */
  lemma DeleteThenGet(items: Items, delete: Value, fault: bool, get: Value)
    requires DeleteUserData.Handle(items, delete, fault).response.statusCode == 200
    requires ExtractUserId(get) == ExtractUserId(delete) && SettlementIdParam(get) == SettlementIdParam(delete)
    ensures GetUserData.LambdaHandler(DeleteUserData.Handle(items, delete, fault).items, get, false)
         == Response(404, Error(SettlementNotFound))
  {
  }

  /** Deleting twice gives the same table and the same response as deleting
      once. */
  lemma DeleteIsIdempotent(items: Items, event: Value)
    ensures var once := DeleteUserData.Handle(items, event, false);
      DeleteUserData.Handle(once.items, event, false) == once
  {
  }

  /** An event as the gateway delivers it for caller `sub` and path parameter
      `settlement_id`, with or without a body. */
  function GatewayEvent(sub: string, settlementId: string, body: Option<string>): Value {
    var fields := map[
      "requestContext" := Obj(map["authorizer" := Obj(map["claims" := Obj(map["sub" := Str(sub)])])]),
      "pathParameters" := Obj(map["settlement_id" := Str(settlementId)])];
    Obj(if body.Some? then fields["body" := Str(body.value)] else fields)
  }

  /** What the three handlers read from such an event. */
  lemma GatewayEventParts(sub: string, settlementId: string, body: Option<string>, parse: string -> SaveUserData.ParseResult)
    requires sub != ""
    ensures ExtractUserId(GatewayEvent(sub, settlementId, body)) == Ok(Str(sub))
    ensures SettlementIdParam(GatewayEvent(sub, settlementId, body)) == Ok(Str(settlementId))
    ensures body.Some? && parse(body.value).Parsed? ==>
      SaveUserData.RequestBody(GatewayEvent(sub, settlementId, body), parse) == Ok(parse(body.value).value)
  {
  }

  /** A worked example: `u1` saves settlement
      `abc` with body `{"amount": 42}`, reads it back, and `u2` asking for the
      same settlement id gets a 404. */
  lemma SaveAndReadExample(parse: string -> SaveUserData.ParseResult, now: string)
    requires parse("{\"amount\": 42}") == SaveUserData.Parsed(Obj(map["amount" := Num(42)]))
    ensures var saved := SaveUserData.Handle(map[], GatewayEvent("u1", "abc", Some("{\"amount\": 42}")), now, parse, false);
      && saved.response == Response(200, Ack(DataSaved, Str("u1"), Str("abc")))
      && GetUserData.LambdaHandler(saved.items, GatewayEvent("u1", "abc", None), false)
         == Response(200, Record(Item(Str("u1"), Str("abc"), Obj(map["amount" := Num(42)]), now)))
      && GetUserData.LambdaHandler(saved.items, GatewayEvent("u2", "abc", None), false)
         == Response(404, Error(SettlementNotFound))
  {
    GatewayEventParts("u1", "abc", Some("{\"amount\": 42}"), parse);
    GatewayEventParts("u1", "abc", None, parse);
    GatewayEventParts("u2", "abc", None, parse);
    assert Str("u1") != Str("u2") by {
      assert "u1"[1] != "u2"[1];
    }
  }
}
