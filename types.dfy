/**
 * The value types of the emitter (types.go): the per-subscriber key/value
 * store `smap`, the `StringSubscriber` identity, and the record shapes kept
 * in a shard (`topicElement`, `topicField`).
 *
 * Locking is not modelled: every operation of `Smap` is atomic.
 */
module Types {
  import opened Collections

  /** Go's `int64`. */
  newtype int64 = x: int | -0x8000_0000_0000_0000 <= x < 0x8000_0000_0000_0000

  /** Go's `uint64`, the result type of the topic hash. */
  type uint64 = x: int | 0 <= x < 0x1_0000_0000_0000_0000

  datatype Option<+T> = None | Some(value: T)

  /**
   * The key/value bag behind a subscriber's `Metadata` (types.go:51-86).
   * Iteration order of the underlying Go map is unspecified, so `Range`
   * picks the next key nondeterministically.
   */
  class Smap<V> {
    var data: map<string, V>

    /** `newSmap`: an empty store; nothing loads from it. */
    constructor ()
      ensures data == map[]
      ensures forall key :: Load(key) == None
    {
      data := map[];
    }

    /** `Load`: `Some(v)` is Go's `(v, true)`, `None` is `(nil, false)`. */
    function Load(key: string): (r: Option<V>)
      reads this
      ensures r.Some? <==> key in data
      ensures r.Some? ==> r.value == data[key]
    {
      if key in data then Some(data[key]) else None
    }

    method Store(key: string, value: V)
      modifies this
      ensures data == old(data)[key := value]
      ensures Load(key) == Some(value)
    {
      data := data[key := value];
    }

    method Delete(key: string)
      modifies this
      ensures data == old(data) - {key}
      ensures Load(key) == None
    {
      data := data - {key};
    }

    /**
     * `Range(f)`: calls `visit` on stored entries, one key at a time, and
     * stops right after the first call that returns false. `visited` lists
     * the keys handed to `visit`, in the order they were visited.
     */
    method Range(visit: (string, V) -> bool) returns (visited: seq<string>)
      ensures NoDuplicates(visited)
      ensures forall i :: 0 <= i < |visited| ==> visited[i] in data
      ensures forall i :: 0 <= i < |visited| - 1 ==> visit(visited[i], data[visited[i]])
      ensures forall k :: k in data && k !in visited ==>
                0 < |visited| && !visit(visited[|visited| - 1], data[visited[|visited| - 1]])
      ensures (forall k :: k in data ==> visit(k, data[k])) ==> forall k :: k in data <==> k in visited
    {
      visited := [];
      var remaining := data.Keys;
      while remaining != {}
        invariant remaining <= data.Keys
        invariant NoDuplicates(visited)
        invariant forall i :: 0 <= i < |visited| ==> visited[i] in data && visited[i] !in remaining
        invariant forall k :: k in data && k !in remaining ==> k in visited
        invariant forall i :: 0 <= i < |visited| ==> visit(visited[i], data[visited[i]])
        decreases remaining
      {
        var k :| k in remaining;
        visited := visited + [k];
        if !visit(k, data[k]) {
          return;
        }
        remaining := remaining - {k};
      }
    }
  }

  /**
   * The subscriber identity shipped with the emitter: a stable id and a
   * metadata store of its own (types.go:34-49). The id is supplied by the
   * caller; event.go's `NewSubscriber` draws it at random.
   */
  class StringSubscriber {
    const id: string
    const md: Smap<string>

    constructor (id: string)
      ensures GetSubscriberID() == id
      ensures fresh(GetMetadata()) && GetMetadata().data == map[]
    {
      this.id := id;
      md := new Smap<string>();
    }

    function GetSubscriberID(): string {
      id
    }

    function GetMetadata(): Smap<string> {
      md
    }
  }

  /** A callback is opaque to the registry; it is only stored and invoked. */
  datatype Callback = Callback(handle: nat)

  /** `topicElement`: what a shard keeps per subscriber of a topic. */
  datatype TopicElement = TopicElement(suber: StringSubscriber, cb: Callback)

  /** `topicField`: subscriber id -> element, for one topic. */
  type TopicField = map<string, TopicElement>
}
