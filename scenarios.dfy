/**
 * The scenarios of event_test.go, replayed against the model. The
 * subscriber ids that `NewSubscriber` draws at random are fixed strings
 * here, the callbacks are handles, and the topic hash is left arbitrary:
 * every outcome below holds whatever shard each topic lands in.
 */
module Scenarios {
  import opened Collections
  import opened Types
  import opened Configuration
  import opened Registry
  import opened Shard
  import opened Emitter

  /**
   * TestSmap_Range (event_test.go:211-222): with two entries stored and a
   * visitor that refuses, exactly one key is visited. Which one depends on
   * the map's iteration order, which Go leaves unspecified.
   */
  method RangeStopsAtFirstRefusal() returns (visited: seq<string>)
    ensures |visited| == 1 && visited[0] in {"1", "2"}
  {
    var m := new Smap<int>();
    m.Store("1", 1);
    m.Store("2", 2);
    var refuse := (key: string, value: int) => false;
    visited := m.Range(refuse);
    assert "1" in m.data && "2" in m.data;
    assert forall k :: k in m.data ==> k == "1" || k == "2";
    assert |visited| >= 1;
    assert visited[0] in m.data;
    assert |visited| <= 1;
  }

  /** Storing a key twice keeps one entry, with the later value. */
  method StoreTwice() returns (m: Smap<int>)
    ensures m.data == map["k" := 2] && m.Load("k") == Some(2)
  {
    m := new Smap<int>();
    m.Store("k", 1);
    m.Store("k", 2);
  }

  /** `New(&Config{BucketNum: 1})` (event_test.go:118): one shard, so every topic routes to index 0. */
  method SingleShard(hash: string -> uint64) returns (em: EventEmitter)
    ensures em.Valid() && em.bucketNum == 1 && |em.buckets| == 1
    ensures forall topic :: em.BucketIndex(topic) == 0
  {
    var conf := new Config.Of(1, 0);
    em := new EventEmitter(conf, hash);
    assert IsPowerOfTwo(1);
  }

  /** `New(nil)`: the default shard count. */
  method DefaultShards(hash: string -> uint64) returns (em: EventEmitter)
    ensures em.Valid() && em.bucketNum == 16 && em.bucketSize == 0 && |em.buckets| == 16
  {
    em := new EventEmitter(null, hash);
  }

  /** A subscribes to "test" and "oh" (event_test.go:15-26); B is created but not yet subscribed. */
  method SubscribeA(hash: string -> uint64) returns (em: EventEmitter, a: StringSubscriber, b: StringSubscriber)
    ensures em.Valid() && em.Subscribers() == {a} && a != b && a.md != b.md
    ensures a.id == "1" && b.id == "2"
    ensures a.md.data == IndexOfA()
    ensures b.md.data == map[]
    ensures fresh(em) && fresh(b.md) && forall i :: 0 <= i < |em.buckets| ==> fresh(em.buckets[i])
  {
    a := new StringSubscriber("1");
    b := new StringSubscriber("2");
    SetAbsorb({a}, a);
    em := new EventEmitter(null, hash);
    UnionSingletons(a, a);
    assert (b.md as object) != a.md && (b.md as object) != em.GetBucket("test") && (b.md as object) != em;
    em.Subscribe(a, "test", Callback(0));
    assert (b.md as object) != a.md && (b.md as object) != em.GetBucket("oh") && (b.md as object) != em;
    em.Subscribe(a, "oh", Callback(1));
  }

  /**
   * The subscriptions of TestEventEmitter_Publish "ok" (event_test.go:15-33):
   * A subscribes to "test" and "oh", B to "test".
   */
  method SubscribeTwo(hash: string -> uint64) returns (em: EventEmitter, a: StringSubscriber, b: StringSubscriber)
    ensures em.Valid() && em.Subscribers() == {a, b} && a != b
    ensures a.id == "1" && b.id == "2"
    ensures a.md.data == IndexOfA()
    ensures b.md.data == IndexOfB()
    ensures em.Metadata.Keys == {a, b} && em.Metadata[a] == IndexPart(IndexOfA()) && em.Metadata[b] == IndexPart(IndexOfB())
  {
    em, a, b := SubscribeA(hash);
    ghost var mdA := a.md.data;
    UnionSingletons(a, b);
    assert (a.md as object) != (em.GetBucket("test") as object) && (a.md as object) != em;
    em.Subscribe(b, "test", Callback(2));
    assert a.md.data == mdA;
    assert em.Metadata.Keys == {a, b};
    assert em.Metadata[a] == IndexPart(IndexOfA()) && em.Metadata[b] == IndexPart(IndexOfB());
  }

  /** The reverse index of A and of B after `SubscribeTwo`. */
  function IndexOfA(): map<string, string> {
    map[IndexKey("test") := "test", IndexKey("oh") := "oh"]
  }

  function IndexOfB(): map<string, string> {
    map[IndexKey("test") := "test"]
  }

  lemma IndexOfAContents()
    ensures IndexValues(IndexOfA()) == {"test", "oh"} && IndexKeys(IndexOfA()) == {IndexKey("test"), IndexKey("oh")}
    ensures IndexKey("test") in IndexOfA() && IndexKey("") !in IndexOfA()
    ensures |IndexKeys(IndexOfA())| == 2
  {
    IndexKeyRoundTrip("test");
    IndexKeyRoundTrip("oh");
    assert IndexKey("test") != IndexKey("oh");
  }

  lemma IndexOfBContents()
    ensures IndexValues(IndexOfB()) == {"test"} && IndexKeys(IndexOfB()) == {IndexKey("test")}
    ensures IndexKey("test") in IndexOfB() && IndexKey("") !in IndexOfB()
  {
    IndexKeyRoundTrip("test");
  }

  /** Who indexes a topic, in the reverse index `SubscribeTwo` leaves behind. */
  lemma IndexedAfterSubscribeTwo(ix: IndexView, a: StringSubscriber, b: StringSubscriber)
    requires ix.Keys == {a, b} && ix[a] == IndexPart(IndexOfA()) && ix[b] == IndexPart(IndexOfB())
    ensures IndexedBy(ix, "test") == {a, b}
    ensures IndexedBy(ix, "") == {}
  {
    IndexOfAContents();
    IndexOfBContents();
    IndexPartAgrees(IndexOfA());
    IndexPartAgrees(IndexOfB());
  }

  /** Publishing "test" reaches both subscribers (event_test.go:35). */
  method PublishReachesBoth(hash: string -> uint64) returns (a: StringSubscriber, b: StringSubscriber, fired: seq<TopicElement>)
    ensures a.id == "1" && b.id == "2"
    ensures SubscribersOf(fired) == {a, b}
  {
    var em;
    em, a, b := SubscribeTwo(hash);
    fired := em.Publish("test");
    em.AudienceIsIndexedBy("test");
    IndexedAfterSubscribeTwo(em.Metadata, a, b);
  }

  /** Two subscribers count for "test" (event_test.go:36). */
  method CountIsTwo(hash: string -> uint64) returns (count: nat)
    ensures count == 2
  {
    var em, a, b := SubscribeTwo(hash);
    count := em.CountSubscriberByTopic("test");
    em.CountMatchesReverseIndex("test");
    em.AudienceIsIndexedBy("test");
    IndexedAfterSubscribeTwo(em.Metadata, a, b);
    CardinalityTwo(em.Audience("test"), a, b);
  }

  /** Each subscriber's topic list is what it subscribed to (event_test.go:37-38). */
  method TopicsOfEach(hash: string -> uint64) returns (topicsA: seq<string>, topicsB: seq<string>)
    ensures Elements(topicsA) == {"test", "oh"} && |topicsA| == 2
    ensures topicsB == ["test"]
  {
    var em, a, b := SubscribeTwo(hash);
    IndexOfAContents();
    IndexOfBContents();
    topicsA := em.GetTopicsBySubscriber(a);
    topicsB := em.GetTopicsBySubscriber(b);
    SingletonElements(topicsB, "test");
  }

  /** Publishing a topic nobody indexes calls nothing (event_test.go:39). */
  method PublishUnknownTopic(hash: string -> uint64) returns (silent: seq<TopicElement>)
    ensures silent == []
  {
    var em, a, b := SubscribeTwo(hash);
    silent := em.Publish("");
    em.AudienceIsIndexedBy("");
    IndexedAfterSubscribeTwo(em.Metadata, a, b);
    NoSubscribersNoElements(silent);
  }

  /** The reverse index of the subscriber of TestEventEmitter_UnSubscribe (event_test.go:166-184). */
  function IndexOfThree(): map<string, string> {
    map[IndexKey("topic1") := "topic1", IndexKey("topic2") := "topic2", IndexKey("topic3") := "topic3"]
  }

  lemma IndexOfThreeContents()
    ensures IndexValues(IndexOfThree()) == {"topic1", "topic2", "topic3"}
    ensures |IndexKeys(IndexOfThree())| == 3
    ensures var rest := IndexOfThree() - {IndexKey("topic1")};
            IndexValues(rest) == {"topic2", "topic3"} && |IndexKeys(rest)| == 2
  {
    IndexKeyRoundTrip("topic1");
    IndexKeyRoundTrip("topic2");
    IndexKeyRoundTrip("topic3");
    var rest := IndexOfThree() - {IndexKey("topic1")};
    assert IndexKeys(IndexOfThree()) == {IndexKey("topic1"), IndexKey("topic2"), IndexKey("topic3")};
    assert IndexKeys(rest) == {IndexKey("topic2"), IndexKey("topic3")};
  }

  /** One subscriber on "topic1", "topic2" and "topic3" of an emitter built from `&Config{}`. */
  method SubscribeThree(hash: string -> uint64) returns (em: EventEmitter, s: StringSubscriber)
    ensures em.Valid() && em.Subscribers() == {s} && s.md.data == IndexOfThree()
    ensures fresh(em) && fresh(s.md) && forall i :: 0 <= i < |em.buckets| ==> fresh(em.buckets[i])
  {
    s := new StringSubscriber("1");
    var conf := new Config();
    em := new EventEmitter(conf, hash);
    UnionSingletons(s, s);
    SetAbsorb({s}, s);
    em.Subscribe(s, "topic1", Callback(0));
    em.Subscribe(s, "topic2", Callback(1));
    em.Subscribe(s, "topic3", Callback(2));
  }

  /** The topic list before and after unsubscribing "topic1" (event_test.go:185-187). */
  method TopicsAfterUnsubscribe(hash: string -> uint64) returns (before: seq<string>, after: seq<string>)
    ensures Elements(before) == {"topic1", "topic2", "topic3"} && |before| == 3
    ensures Elements(after) == {"topic2", "topic3"} && |after| == 2
  {
    var em, s := SubscribeThree(hash);
    IndexOfThreeContents();
    before := em.GetTopicsBySubscriber(s);
    em.UnSubscribe(s, "topic1");
    after := em.GetTopicsBySubscriber(s);
  }

  /**
   * `UnSubscribeAll` leaves the subscriber without topics, and a second call
   * is harmless: nobody counts for a topic nobody subscribed to
   * (event_test.go:188-192).
   */
  method UnsubscribeAllTwice(hash: string -> uint64) returns (topics: seq<string>, count: nat)
    ensures topics == [] && count == 0
  {
    var em, s := SubscribeThree(hash);
    SetAbsorb({s}, s);
    em.UnSubscribe(s, "topic1");
    ghost var md := s.md.data;
    em.UnSubscribeAll(s);
    StrippedIndex(md);
    topics := em.GetTopicsBySubscriber(s);
    assert |topics| == 0;
    em.UnSubscribeAll(s);
    count := em.CountSubscriberByTopic("topic0");
    em.CountMatchesReverseIndex("topic0");
    assert em.Audience("topic0") == {};
  }

  function IndexOfChat(): map<string, string> {
    map[IndexKey("chat") := "chat"]
  }

  /** Two subscribers on "chat", of an emitter built from `nil` (event_test.go:196-200). */
  method SubscribeChat(hash: string -> uint64) returns (em: EventEmitter, a: StringSubscriber, b: StringSubscriber)
    ensures em.Valid() && em.Subscribers() == {a, b} && a != b && a.md != b.md
    ensures a.md.data == IndexOfChat() && b.md.data == IndexOfChat()
    ensures fresh(em) && fresh(a.md) && forall i :: 0 <= i < |em.buckets| ==> fresh(em.buckets[i])
  {
    a := new StringSubscriber("1");
    b := new StringSubscriber("2");
    em := new EventEmitter(null, hash);
    UnionSingletons(a, b);
    assert (b.md as object) != a.md && (b.md as object) != em.GetBucket("chat") && (b.md as object) != em;
    em.Subscribe(a, "chat", Callback(0));
    assert (a.md as object) != b.md && (a.md as object) != em.GetBucket("chat") && (a.md as object) != em;
    em.Subscribe(b, "chat", Callback(1));
  }

  /** Who indexes "chat" once A has left it. */
  lemma IndexedAfterLeavingChat(ix: IndexView, a: StringSubscriber, b: StringSubscriber)
    requires ix.Keys == {a, b} && ix[a] == IndexPart(IndexOfChat() - {IndexKey("chat")}) && ix[b] == IndexPart(IndexOfChat())
    ensures IndexedBy(ix, "chat") == {b}
  {
    IndexPartAgrees(IndexOfChat() - {IndexKey("chat")});
    IndexPartAgrees(IndexOfChat());
  }

  /**
   * After A unsubscribes from "chat", one subscriber counts for it, A's
   * metadata no longer holds the topic and B's still does
   * (event_test.go:201-207).
   */
  method UnsubscribeOneOfTwo(hash: string -> uint64) returns (count: nat, loadA: Option<string>, loadB: Option<string>)
    ensures count == 1 && loadA == None && loadB == Some("chat")
  {
    var em, a, b := SubscribeChat(hash);
    SetAbsorb({a, b}, a);
    assert (b.md as object) != a.md && (b.md as object) != em.GetBucket("chat") && (b.md as object) != em;
    em.UnSubscribe(a, "chat");
    count := em.CountSubscriberByTopic("chat");
    em.CountMatchesReverseIndex("chat");
    em.AudienceIsIndexedBy("chat");
    IndexedAfterLeavingChat(em.Metadata, a, b);
    CardinalityOne(em.Audience("chat"), b);
    loadA := a.GetMetadata().Load(IndexKey("chat"));
    loadB := b.GetMetadata().Load(IndexKey("chat"));
  }

  /**
   * A store is the caller's as well (types.go:71-75): an entry under a key
   * outside the `sub-topic-` prefix leaves the emitter's invariant intact,
   * and publishing "chat" still reaches both subscribers.
   */
  method NoteBesideIndex(hash: string -> uint64) returns (a: StringSubscriber, b: StringSubscriber, fired: seq<TopicElement>)
    ensures a != b && a.md.data == IndexOfChat()["note" := "x"]
    ensures SubscribersOf(fired) == {a, b}
  {
    var em;
    em, a, b := SubscribeChat(hash);
    IndexPartUntouched(a.md.data, "note", "x");
    a.GetMetadata().Store("note", "x");
    assert (b.md as object) != a.md;
    assert em.Valid();
    fired := em.Publish("chat");
    assert a in em.Audience("chat") && b in em.Audience("chat");
  }
}
