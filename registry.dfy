/**
 * The contents of one shard as a value: a table from topic to its
 * registration (subscriber id -> element), and what the shard operations of
 * event.go do to it. The shard class (shard.dfy) is specified by these
 * functions; the lemmas here are the properties the source relies on.
 */
module Registry {

  /** topic -> (subscriber id -> element); `bucket.Topics` of event.go. */
  type Table<E> = map<string, map<string, E>>

  /** One row of `TopicStatus` (event.go:153-156). */
  datatype TopicStatus = TopicStatus(topic: string, count: int)

  /** The number of subscribers registered to `topic`; 0 if it has no registration. */
  function Count<E>(t: Table<E>, topic: string): (n: nat)
    ensures n == 0 <==> topic !in t || t[topic] == map[]
    ensures topic in t ==> n == |t[topic].Keys|
  {
    if topic in t then |t[topic]| else 0
  }

  /** `bucket.subscribe`: create the registration if needed, then put `id -> e` in it. */
  function WithSubscriber<E>(t: Table<E>, topic: string, id: string, e: E): (r: Table<E>)
    ensures r.Keys == t.Keys + {topic}
    ensures id in r[topic] && r[topic][id] == e
    ensures r[topic].Keys == (if topic in t then t[topic].Keys else {}) + {id}
    ensures forall i :: i in r[topic] && i != id ==> r[topic][i] == t[topic][i]
    ensures forall u :: u in t && u != topic ==> r[u] == t[u]
  {
    var subers := if topic in t then t[topic] else map[];
    t[topic := subers[id := e]]
  }

  /** `bucket.unSubscribe`: drop `id` from the registration of `topic`, if there is one. */
  function WithoutSubscriber<E>(t: Table<E>, topic: string, id: string): (r: Table<E>)
    ensures r.Keys == t.Keys
    ensures topic in t ==> id !in r[topic] && r[topic].Keys == t[topic].Keys - {id}
    ensures topic in t ==> forall i :: i in r[topic] ==> r[topic][i] == t[topic][i]
    ensures forall u :: u in t && u != topic ==> r[u] == t[u]
  {
    if topic in t then t[topic := t[topic] - {id}] else t
  }

  /** A table with `id` dropped from every registration (the shard side of `UnSubscribeAll`). */
  function WithoutId<E>(t: Table<E>, id: string): (r: Table<E>)
    ensures r.Keys == t.Keys
    ensures forall u :: u in t ==> id !in r[u] && r[u].Keys == t[u].Keys - {id}
    ensures forall u, i :: u in t && i in r[u] ==> r[u][i] == t[u][i]
  {
    map u | u in t :: t[u] - {id}
  }

  /** A table with `id` dropped from the registrations of `topics` only. */
  ghost function WithoutIdOn<E>(t: Table<E>, id: string, topics: set<string>): Table<E> {
    map u | u in t :: if u in topics then t[u] - {id} else t[u]
  }

  /** `status` reports every topic of `t` once, with its subscriber count. */
  ghost predicate Reports<E>(status: seq<TopicStatus>, t: Table<E>) {
    && (forall i, j :: 0 <= i < j < |status| ==> status[i].topic != status[j].topic)
    && (forall i :: 0 <= i < |status| ==> status[i].topic in t && status[i].count == Count(t, status[i].topic))
    && (forall u :: u in t ==> u in TopicsOf(status))
  }

  ghost function TopicsOf(status: seq<TopicStatus>): set<string> {
    set s | s in status :: s.topic
  }

  lemma TopicsOfConcat(a: seq<TopicStatus>, b: seq<TopicStatus>)
    ensures TopicsOf(a + b) == TopicsOf(a) + TopicsOf(b)
  {
    assert forall x :: x in a + b <==> x in a || x in b;
  }

  /** Subscribing adds one to the count, unless the id was already registered. */
  lemma SubscribeCount<E>(t: Table<E>, topic: string, id: string, e: E)
    ensures Count(WithSubscriber(t, topic, id, e), topic)
         == Count(t, topic) + (if topic in t && id in t[topic] then 0 else 1)
  {
    var r := WithSubscriber(t, topic, id, e);
    if topic in t && id in t[topic] {
      assert r[topic].Keys == t[topic].Keys;
    } else {
      var before := if topic in t then t[topic].Keys else {};
      assert id !in before;
      assert |before + {id}| == |before| + 1;
    }
  }

  /** Re-subscribing the same id overwrites its element: the earlier one leaves no trace. */
  lemma ResubscribeOverwrites<E>(t: Table<E>, topic: string, id: string, e1: E, e2: E)
    ensures WithSubscriber(WithSubscriber(t, topic, id, e1), topic, id, e2) == WithSubscriber(t, topic, id, e2)
  {
    var a := WithSubscriber(WithSubscriber(t, topic, id, e1), topic, id, e2);
    var b := WithSubscriber(t, topic, id, e2);
    assert a[topic] == b[topic];
  }

  /** Unsubscribing removes one subscriber from the count, if it was registered. */
  lemma UnsubscribeCount<E>(t: Table<E>, topic: string, id: string)
    ensures Count(WithoutSubscriber(t, topic, id), topic)
         == Count(t, topic) - (if topic in t && id in t[topic] then 1 else 0)
  {
    if topic in t && id in t[topic] {
      var r := WithoutSubscriber(t, topic, id);
      assert t[topic].Keys == r[topic].Keys + {id};
    }
  }

  /** Unsubscribing from a topic without a registration, or an id it does not hold, changes nothing. */
  lemma UnsubscribeAbsent<E>(t: Table<E>, topic: string, id: string)
    requires topic !in t || id !in t[topic]
    ensures WithoutSubscriber(t, topic, id) == t
  {
    if topic in t {
      assert t[topic] - {id} == t[topic];
    }
  }

  /** A second unsubscribe of the same id from the same topic changes nothing. */
  lemma UnsubscribeIdempotent<E>(t: Table<E>, topic: string, id: string)
    ensures WithoutSubscriber(WithoutSubscriber(t, topic, id), topic, id) == WithoutSubscriber(t, topic, id)
  {
    var r := WithoutSubscriber(t, topic, id);
    if topic in t {
      assert r[topic] - {id} == r[topic];
    }
  }

  /**
   * Unsubscribing the only subscriber keeps the topic, with an empty
   * registration: registrations are never removed.
   */
  lemma EmptyRegistrationPersists<E>(t: Table<E>, topic: string, id: string, e: E)
    requires topic !in t
    ensures var r := WithoutSubscriber(WithSubscriber(t, topic, id, e), topic, id);
            topic in r && r[topic] == map[] && Count(r, topic) == 0
  {
    var r := WithoutSubscriber(WithSubscriber(t, topic, id, e), topic, id);
    assert r[topic].Keys == {};
  }

  /** Dropping an id everywhere twice is the same as dropping it once. */
  lemma WithoutIdIdempotent<E>(t: Table<E>, id: string)
    ensures WithoutId(WithoutId(t, id), id) == WithoutId(t, id)
  {
    var r := WithoutId(t, id);
    forall u | u in r
      ensures WithoutId(r, id)[u] == r[u]
    {
      assert r[u] - {id} == r[u];
    }
  }

  /** Dropping an id that is registered nowhere changes nothing. */
  lemma WithoutAbsentId<E>(t: Table<E>, id: string)
    requires forall u :: u in t ==> id !in t[u]
    ensures WithoutId(t, id) == t
  {
    forall u | u in t
      ensures WithoutId(t, id)[u] == t[u]
    {
      assert t[u] - {id} == t[u];
    }
  }
}
