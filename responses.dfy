/** The `{statusCode, body}` dictionaries the handlers return. A body is kept
    as the structured value that `json.dumps` would serialise. */
module Responses {
  import opened Events
  import opened Storage

  const InternalError := "Internal server error"
  const SettlementIdRequired := "settlement_id is required"
  const SettlementNotFound := "Settlement not found"
  const InvalidJson := "Invalid JSON in request body"
  const DataSaved := "Data saved successfully"
  const DataDeleted := "Data deleted successfully"

  datatype Body =
    | Error(error: string)
      /** one stored item, as returned by a single-item read */
    | Record(item: Item)
      /** the items a query returned; their order is the store's */
    | Records(items: set<Item>)
      /** the acknowledgement of a save or a delete */
    | Ack(message: string, userId: Value, settlementId: Value)

  datatype Response = Response(statusCode: int, body: Body)

  /** What a state-changing handler leaves behind: its response and the
      table's contents afterwards. */
  datatype Outcome = Outcome(response: Response, items: Items)

  /** The handlers' `except` clauses: a ValueError becomes 401 carrying its
      message, anything else 500 with a generic message. */
  function FromException(e: Exception): (r: Response)
    ensures r.statusCode in {401, 500}
    ensures r.statusCode == 401 <==> e.ValueError?
    ensures e.ValueError? ==> r.body == Error(e.message)
    // nothing about a non-validation error reaches the caller
    ensures e.OtherError? ==> r.body == Error(InternalError)
  {
    match e
    case ValueError(m) => Response(401, Error(m))
    case OtherError => Response(500, Error(InternalError))
  }
}
