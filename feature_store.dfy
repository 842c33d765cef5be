/**
 The remote hash-map collection named "features": string field names mapped
 to string values ("1" for on, "0" for off). The source reaches it through
 four network calls (HGETALL, HMGET, HSET, HDEL); here it is a map, the two
 reads are a reply sequence related to the map, and the two writes are
 methods on an object holding the map.
 */
module FeatureStore {

  datatype Option<T> = None | Some(value: T)

  type Hash = map<string, string>

  /** The value "1" is the only one that reads as on. */
  const On: string := "1"
  const Off: string := "0"

  /** The flag a reader sees for `name`: a missing field and any value other than "1" read as off. */
  predicate Flag(store: Hash, name: string)
  {
    name in store && store[name] == On
  }

  /** The field name of the k-th pair of a flat HGETALL reply. */
  function FieldAt(data: seq<string>, k: nat): string
    requires 2 * k < |data|
  {
    data[2 * k]
  }

  /**
   A flat HGETALL reply for `store`: field, value, field, value, ... with
   each field of the hash exactly once, in an order the store chooses.
   */
  ghost predicate IsHGetAllReply(store: Hash, data: seq<string>)
    ensures store == map[] ==> (IsHGetAllReply(store, data) <==> data == [])
  {
    assert |data| > 0 ==> FieldAt(data, 0) == data[0];
    && |data| % 2 == 0
    && (forall k :: 0 <= k < |data| / 2 ==>
          FieldAt(data, k) in store && store[FieldAt(data, k)] == data[2 * k + 1])
    && (forall k, l :: 0 <= k < l < |data| / 2 ==> FieldAt(data, k) != FieldAt(data, l))
    && (forall f :: f in store ==> exists k :: 0 <= k < |data| / 2 && FieldAt(data, k) == f)
  }

  /** The HMGET reply for `keys`: the value of each requested field, in request order, null when absent. */
  function HMGet(store: Hash, keys: seq<string>): (data: seq<Option<string>>)
    ensures |data| == |keys|
    ensures forall i :: 0 <= i < |keys| ==> (data[i].Some? <==> keys[i] in store)
    ensures forall i :: 0 <= i < |keys| && data[i].Some? ==> data[i].value == store[keys[i]]
  {
    seq(|keys|, i requires 0 <= i < |keys| => if keys[i] in store then Some(store[keys[i]]) else None)
  }

  /** The process-wide handle on the "features" hash; `fields` is its current content. */
  class FeaturesHash {
    var fields: Hash

    constructor (initial: Hash)
      ensures fields == initial
    {
      fields := initial;
    }

    /** HSET features field value: creates or overwrites one field. */
    method HSet(field: string, value: string)
      modifies this
      ensures fields == old(fields)[field := value]
    {
      fields := fields[field := value];
    }

    /** HDEL features field: removes one field, and does nothing when it is absent. */
    method HDel(field: string)
      modifies this
      ensures fields == old(fields) - {field}
    {
      fields := fields - {field};
    }
  }
}
