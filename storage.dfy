/** The settlement table: a key-value store keyed by `(user_id, settlement_id)`
    with single-item get, put (full replace) and delete, and a query by
    partition key. */
module Storage {
  import opened Events

  datatype Key = Key(userId: Value, settlementId: Value)

  /** The item the save handler writes: its key attributes, the parsed body
      and the write time. */
  datatype Item = Item(userId: Value, settlementId: Value, data: Value, updatedAt: string) {
    function KeyOf(): Key {
      Key(userId, settlementId)
    }
  }

  type Items = map<Key, Item>

  /** Every item is stored under its own key attributes. */
  ghost predicate WellFormed(items: Items) {
    forall k :: k in items ==> items[k].KeyOf() == k
  }

  /** The entries whose partition key is `userId`: the part of the table a
      query by that partition key reads. */
  function Partition(items: Items, userId: Value): (p: Items)
    ensures forall k :: k in p <==> k in items && k.userId == userId
    ensures forall k :: k in p ==> p[k] == items[k]
    ensures p.Values == Query(items, userId)
  {
    map k | k in items && k.userId == userId :: items[k]
  }

  /** `query(KeyConditionExpression='user_id = :user_id')`: exactly the stored
      items whose partition key is `userId`, in no particular order. */
  function Query(items: Items, userId: Value): (r: set<Item>)
    ensures forall k :: k in items && k.userId == userId ==> items[k] in r
    ensures WellFormed(items) ==> forall it :: it in r <==> it in items.Values && it.userId == userId
  {
    set k | k in items && k.userId == userId :: items[k]
  }

  /** The table as one long-lived handle whose contents the write and delete
      handlers change. `fault` stands for the store raising an error on this
      call, in which case nothing is written. */
  class Table {
    var items: Items

    ghost predicate Valid()
      reads this
    {
      WellFormed(items)
    }

    /** A fresh, empty table. */
    constructor()
      ensures Valid() && items == map[]
    {
      items := map[];
    }

    method PutItem(item: Item, fault: bool) returns (ok: bool)
      requires Valid()
      modifies this
      ensures Valid()
      ensures ok == !fault
      ensures items == if ok then old(items)[item.KeyOf() := item] else old(items)
    {
      ok := !fault;
      if ok {
        items := items[item.KeyOf() := item];
      }
    }

    method DeleteItem(key: Key, fault: bool) returns (ok: bool)
      requires Valid()
      modifies this
      ensures Valid()
      ensures ok == !fault
      ensures items == if ok then old(items) - {key} else old(items)
    {
      ok := !fault;
      if ok {
        items := items - {key};
      }
    }
  }
}
