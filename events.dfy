/** The values a handler sees: a gateway event, its nested dictionaries and the
    parsed request body are all JSON-shaped values. The module also gives the
    two pieces of Python semantics the handlers depend on: truthiness and
    `dict.get(key, default)`, which raises on anything that is not a dict. */
module Events {

  datatype Option<+T> = None | Some(value: T) {
    function GetOr(default: T): T {
      if Some? then value else default
    }
  }

  /** A JSON value as Python's `json` module and the Lambda runtime hand it to
      the handler. Numbers are integers only (see README, "Left out"). */
  datatype Value =
    | Null
    | Bool(b: bool)
    | Num(n: int)
    | Str(s: string)
    | Arr(elems: seq<Value>)
    | Obj(fields: map<string, Value>)

  /** Python truthiness: `None`, `False`, `0`, `""`, `[]` and `{}` are false. */
  predicate Truthy(v: Value) {
    match v
    case Null => false
    case Bool(b) => b
    case Num(n) => n != 0
    case Str(s) => s != ""
    case Arr(a) => a != []
    case Obj(m) => m != map[]
  }

  /** What a handler can raise. `ValueError` carries `str(e)`; every other
      exception (AttributeError, TypeError, a storage client error) is only
      ever caught by the final `except Exception`, which ignores its details. */
  datatype Exception = ValueError(message: string) | OtherError

  datatype Result<+T> = Ok(value: T) | Raised(exc: Exception) {
    predicate IsFailure() { Raised? }

    function PropagateFailure<U>(): Result<U>
      requires Raised?
    {
      Raised(exc)
    }

    function Extract(): T
      requires Ok?
    {
      value
    }
  }

  /** `v.get(key, default)`: on a dict, the stored value (even when it is
      `None`) or the default; on anything else an AttributeError. */
  function Get(v: Value, key: string, default: Value): Result<Value> {
    match v
    case Obj(m) => Ok(if key in m then m[key] else default)
    case _ => Raised(OtherError)
  }

  /** Strict lookup of `key` in a value that may be absent: `None` unless the
      value is a dict holding the key. Used only to state contracts. */
  ghost function Member(v: Option<Value>, key: string): Option<Value> {
    if v.Some? && v.value.Obj? && key in v.value.fields then Some(v.value.fields[key]) else None
  }

  /** The value is present and is not a dict, so calling `.get` on it raises. */
  ghost predicate NonDict(v: Option<Value>) {
    v.Some? && !v.value.Obj?
  }

  /** `(event.get('pathParameters') or {}).get('settlement_id')`: a falsy
      `pathParameters` (absent, `None`, `{}`) reads as no parameter, a truthy
      non-dict raises. */
  function SettlementIdParam(event: Value): (r: Result<Value>)
    ensures event.Obj? && !Truthy(Member(Some(event), "pathParameters").GetOr(Null)) ==> r == Ok(Null)
    ensures r.Ok? && Truthy(r.value) ==>
      Member(Member(Some(event), "pathParameters"), "settlement_id") == Some(r.value)
    // a dict of path parameters yields its `settlement_id`, or `None` when it has none
    ensures var params := Member(Some(event), "pathParameters");
      event.Obj? && params.Some? && params.value.Obj? ==>
        r == Ok(Member(params, "settlement_id").GetOr(Null))
    ensures r.Raised? ==> r.exc == OtherError
    ensures r.Raised? <==>
      !event.Obj? || (Truthy(Member(Some(event), "pathParameters").GetOr(Null)) && NonDict(Member(Some(event), "pathParameters")))
  {
    var given :- Get(event, "pathParameters", Null);
    var params := if Truthy(given) then given else Obj(map[]);
    Get(params, "settlement_id", Null)
  }
}
