# Settlement data handlers: a verified model

This project models the request-decision layer of the three AWS Lambda
functions that give each signed-in user read, write and delete access to
their own "settlement" records. The records live in one DynamoDB table keyed by
`(user_id, settlement_id)`.

- **Identity** (`Identity.ExtractUserId`): the caller is the `sub` claim under
  `requestContext.authorizer.claims`. Each missing level defaults to an empty
  dict. A falsy or missing `sub` raises the ValueError that becomes 401. A
  level that is present but is not a dict makes `.get` raise an
  AttributeError, which becomes 500. The same function appears three times in
  the source: `get_user_data.py:20-29`, `save_user_data.py:20-29` and
  `delete_user_data.py:12-21`. It is modelled once.
- **Read** (`GetUserData.LambdaHandler`): a function of the table's contents.
  With a truthy `settlement_id` it does a single-key lookup and returns 200
  with the item, or 404. Otherwise it returns 200 with every item in the
  caller's partition.
- **Write** (`SaveUserData.Handle`, `SaveUserData.LambdaHandler`): checks the
  settlement id, then parses the body (a missing body becomes `'{}'`). It then
  does a full-replace put of `{user_id, settlement_id, data, updated_at}`.
- **Delete** (`DeleteUserData.Handle`, `DeleteUserData.LambdaHandler`):
  checks the settlement id and removes the key without asking whether it
  exists.

The table is the class `Storage.Table`, with a map field `items`. Its
`PutItem` and `DeleteItem` methods have DynamoDB's single-item semantics. The
write and delete handlers are methods that change this field. Each is proved
equal to a specification function `Handle`, which returns an
`Outcome(response, items)` for the table before the call. The lemmas in
module `Api` relate the handlers to each other through that function. Responses
are `Response(statusCode, body)`. The body is the structured value that
`json.dumps` would serialise: an error message, one item, the set of items a
query returned, or a save/delete acknowledgement echoing the key.

Inputs from outside the model are parameters:

- the JSON parser `parse: string -> ParseResult`, an opaque partial function
  that yields a value or a decode error with its message;
- the clock reading `now`, for `updated_at`;
- a `fault` flag, meaning "the store raised on this call".

Events are JSON-shaped `Value`s, so that the code's `.get` chains and Python
truthiness are modelled as written.

**Malformed JSON answers 401.** In `save_user_data.py` the clause
`except json.JSONDecodeError` at lines 77-82 answers 400 "Invalid JSON in
request body", so a 400 was evidently meant for a malformed body. But
`json.JSONDecodeError` is a subclass of `ValueError`, so the earlier
`except ValueError` clause at line 71 catches it first and answers 401 with
the decoder's message. The clause at lines 77-82 can never run. The model
follows the code: `SaveUserData.Handle` states the 401 (with the decoder's
message) and states that the only 400 it gives is "settlement_id is required".
None of the three handlers sets response headers, so the model has none.

## Model

| member | source | states |
|---|---|---|
| `Identity.ExtractUserId` | infrastructure/lambda/get_user_data.py:20-29 | Succeeds exactly when the nested path `requestContext.authorizer.claims.sub` leads to a truthy value, which it returns. It raises AttributeError (500) exactly when some level on the way is present but not a dict. Otherwise it raises the ValueError "User ID not found in authorization context". |
| `Events.SettlementIdParam` | infrastructure/lambda/get_user_data.py:38-39 | A falsy `pathParameters` (absent, null, empty) reads as no settlement id. A truthy one that is not a dict raises (500), and so does an event that is not a dict. A dict of path parameters yields exactly its `settlement_id` value, or `None` when the key is absent. |
| `Storage.Query` | infrastructure/lambda/get_user_data.py:65-72 | Holds every item stored under a key of the user's partition. On a well-formed table it holds exactly the stored items whose `user_id` is the user. |
| `Storage.Partition` | infrastructure/lambda/get_user_data.py:65-72 | The part of the table a query by the user's partition key reads: its stored values are exactly the query's result. It is the unit the isolation lemmas are stated in. |
| `Storage.Table.constructor` | infrastructure/lambda/get_user_data.py:11-12 | The table handle the handlers share starts empty and well formed. |
| `Storage.Table.PutItem` | infrastructure/lambda/save_user_data.py:59-60 | On success the entry under the item's key is replaced by the item. On a store fault nothing changes. Either way the table stays well formed. |
| `Storage.Table.DeleteItem` | infrastructure/lambda/delete_user_data.py:41-47 | On success the key is removed, whether or not it was present. On a store fault nothing changes. |
| `Responses.FromException` | infrastructure/lambda/get_user_data.py:78-89 | The handlers' `except` clauses (also save_user_data.py:71-88 and delete_user_data.py:58-69): a ValueError, and only a ValueError, answers 401 carrying its message. Every other exception answers 500 "Internal server error", with nothing of the exception in the body. |
| `GetUserData.LambdaHandler` | infrastructure/lambda/get_user_data.py:31-89 | Answers only 200/401/404/500. A missing `sub` gives 401 "User ID not found in authorization context" whatever the path parameters. With a truthy settlement id it gives 200 with exactly the stored item under the caller's key, or 404 "Settlement not found". With none it gives 200 with every item of the caller's partition and, on a well-formed table, no other. A claim path or `pathParameters` that `.get` cannot walk, or a store fault, gives 500 "Internal server error". 200 and 404 happen only for an identified caller after a store call that succeeded, so no item is ever returned on an error path. |
| `SaveUserData.RequestBody` | infrastructure/lambda/save_user_data.py:47 | An event without `body` parses `'{}'`. A `body` that is not a string raises a TypeError (500), and so does an event that is not a dict. A string body is what the parser makes of it: its value, or a JSONDecodeError, which is a ValueError carrying the decoder's message. |
| `SaveUserData.Handle` | infrastructure/lambda/save_user_data.py:31-88 | Answers only 200/400/401/500. Every non-200 path leaves the table unchanged. A missing `sub` gives 401. A missing settlement id gives 400, checked before the body is parsed. A malformed body gives 401 with the decoder's message, and 400 never means malformed JSON. A 401 only ever reports a missing `sub` or a malformed body. An event `.get` cannot walk, a body that is not a string, or a failing put gives 500 "Internal server error". 200 happens exactly when identity, settlement id and body are good and the put succeeds. Then the caller's entry is replaced outright by `{user_id, settlement_id, parsed body, now}`, every other entry is kept, and the response echoes the key. Entries of other users are never touched or created. |
| `SaveUserData.LambdaHandler` | infrastructure/lambda/save_user_data.py:31-88 | The imperative handler on the shared table: its response and the table afterwards are those of `SaveUserData.Handle` on the table before. It keeps the table well formed. |
| `DeleteUserData.Handle` | infrastructure/lambda/delete_user_data.py:23-69 | Answers only 200/400/401/500. Non-200 paths leave the table unchanged. A missing `sub` gives 401. A missing settlement id gives 400. A 401 only ever reports a missing `sub`. An event `.get` cannot walk, or a failing delete, gives 500 "Internal server error". 200 "Data deleted successfully" happens exactly when identity and settlement id are good and the store does not fault, whether or not the key existed. Afterwards the key is absent and every other entry is unchanged. No entry is ever added or altered. |
| `DeleteUserData.LambdaHandler` | infrastructure/lambda/delete_user_data.py:23-69 | The imperative handler on the shared table: its response and the table afterwards are those of `DeleteUserData.Handle`. It keeps the table well formed. |
| `Api.Apply` | infrastructure/lambda/get_user_data.py:31-89 | Any one request to any endpoint (the read handler cited here, the write handler at save_user_data.py:31-88, the delete handler at delete_user_data.py:23-69): a read never changes the table. A missing `sub` gives 401 and no change on every endpoint. No request touches or creates an entry of a user other than the caller. Well-formedness is preserved. |
| `Api.Replay` | infrastructure/lambda/save_user_data.py:52-60 | Serving any sequence of requests keeps the table well formed. A sequence of reads only leaves it unchanged. |
| `Api.ApplyKeepsOtherPartitions` | infrastructure/lambda/delete_user_data.py:42-47 | A request whose caller is not `u` leaves `u`'s partition identical. |
| `Api.ReplayKeepsOtherPartitions` | infrastructure/lambda/save_user_data.py:52-60 | Isolation: any sequence of requests, none made by `u`, leaves `u`'s partition identical. Proved by induction on the sequence. |
| `Api.ReadSeesOnlyOwnPartition` | infrastructure/lambda/get_user_data.py:43-76 | Two tables that agree on the caller's partition give the caller's read the same response, single-item or list. |
| `Api.OthersAreInvisible` | infrastructure/lambda/get_user_data.py:45-72 | Whatever other callers do in between, the caller's reads answer exactly as before. |
| `Api.SaveThenGet` | infrastructure/lambda/save_user_data.py:52-60 | After a successful save, the same caller's read of the same key gives 200 with the item `{user_id, settlement_id, data, now}`, and `data` is the parsed request body. |
| `Api.SaveThenQuery` | infrastructure/lambda/save_user_data.py:52-60 | After a successful save, the caller's read-all set is the old set minus the old item with that settlement id, plus the new item. |
| `Api.SaveTwiceIsSaveOnce` | infrastructure/lambda/save_user_data.py:52-60 | Saving the same request twice gives the same response and table as saving it once with the later clock reading. |
| `Api.SaveIgnoresClockButTimestamp` | infrastructure/lambda/save_user_data.py:52-57 | Two saves of the same request at different times give tables with the same keys whose items differ at most in `updated_at`. |
| `Api.NoBodyStoresEmptyObject` | infrastructure/lambda/save_user_data.py:47 | An event without a `body` key stores the empty object, for any parser that reads `'{}'` as the empty object. |
| `Api.NullBodyIsInternalError` | infrastructure/lambda/save_user_data.py:47-88 | A `body` that is present but null makes `json.loads` raise a TypeError: 500 and nothing stored. |
| `Api.DeleteThenGet` | infrastructure/lambda/delete_user_data.py:42-47 | After a successful delete, the same caller's read of that key gives 404 "Settlement not found". |
| `Api.DeleteIsIdempotent` | infrastructure/lambda/delete_user_data.py:42-56 | Deleting twice gives the same table and the same response as deleting once. |
| `Api.GatewayEventParts` | infrastructure/lambda/get_user_data.py:20-39 | An event carrying a non-empty `sub` claim and a settlement id resolves to exactly that caller and that settlement id. Its body is parsed as given. |
| `Api.SaveAndReadExample` | infrastructure/lambda/save_user_data.py:52-69 | Worked example: `u1` saves `abc` with `{"amount": 42}` and gets 200 with the echo. `u1`'s read returns the stored item. `u2`'s read of `abc` is a 404. |

## Left out

- The boto3 resource, the table handle and the `USER_DATA_TABLE` environment lookup: the foreign client is replaced by the map-backed `Storage.Table`.
- `DecimalEncoder`: its only job is Decimal-to-float conversion, which is floating point. For the same reason, `Value` numbers are integers.
- The internals of `json.loads` and `json.dumps`: parsing is the `parse` parameter, and response bodies are structured values, not strings.
- `datetime.utcnow().isoformat()`: the clock reading is the `now` parameter.
- Logging through `logger` in all three files: it has no effect on responses or state.
- Query pagination (only the first page of at most 1 MB is returned) and the order of query results: the read-all body is a set.
- Store behaviour beyond "a call may raise": the `fault` flag is the only source of store errors. The service's own validation is not modelled: key attributes of the wrong type or empty, items over the size limit, and boto3 rejecting Python floats. The model therefore accepts any `Value` as a key component.
- Api.SaveThenGet, Api.SaveThenQuery, Api.DeleteThenGet: reads are modelled as strongly consistent, so each read sees the last write. The code's `get_item` and `query` calls (get_user_data.py:45-50 and 65-70) do not pass `ConsistentRead=True`, and DynamoDB's reads are then eventually consistent: a read right after a write may still return the older item. These three lemmas hold only for strongly consistent reads.
- Retries, concurrency and partial failures of a store call: each call either takes effect atomically or raises before changing anything.
- Bearer-token fallback decoding and CORS headers: neither appears in these three handlers.
