/**
 * The emitter façade (`EventEmitter` in event.go:33-145): a fixed array of
 * shards, a topic router, and the reverse index each subscriber keeps in its
 * own metadata (key `"sub-topic-" + topic`, value `topic`).
 *
 * `maphash.String(seed, ·)` with the seed drawn in `New` is the parameter
 * `hash`; the model fixes nothing about it beyond its range.
 */
module Emitter {
  import opened Collections
  import opened Types
  import opened Configuration
  import opened Registry
  import opened Shard

  /** `subTopic`: the prefix of every reverse-index key. */
  const SubTopic: string := "sub-topic-"

  /** The metadata key under which a subscriber records `topic`. */
  function IndexKey(topic: string): string {
    SubTopic + topic
  }

  /** `strings.HasPrefix(key, subTopic)`. */
  predicate IsIndexKey(key: string) {
    |SubTopic| <= |key| && key[..|SubTopic|] == SubTopic
  }

  /** The topic an index key stands for. */
  function IndexedTopic(key: string): string
    requires IsIndexKey(key)
  {
    key[|SubTopic|..]
  }

  lemma IndexKeyRoundTrip(topic: string)
    ensures IsIndexKey(IndexKey(topic)) && IndexedTopic(IndexKey(topic)) == topic
  {
    assert IndexKey(topic)[..|SubTopic|] == SubTopic;
  }

  lemma IndexedTopicRoundTrip(key: string)
    requires IsIndexKey(key)
    ensures IndexKey(IndexedTopic(key)) == key
  {
    assert key == key[..|SubTopic|] + key[|SubTopic|..];
  }

  /** Distinct topics have distinct index keys. */
  lemma IndexKeyInjective(t: string, u: string)
    requires IndexKey(t) == IndexKey(u)
    ensures t == u
  {
    IndexKeyRoundTrip(t);
    IndexKeyRoundTrip(u);
  }

  /** The keys and the values of the index entries of a metadata map. */
  ghost function IndexKeys(data: map<string, string>): set<string> {
    set k | k in data && IsIndexKey(k)
  }

  ghost function IndexValues(data: map<string, string>): set<string> {
    set k | k in data && IsIndexKey(k) :: data[k]
  }

  /** A store stripped of its index keys indexes no topic: what `UnSubscribeAll` leaves behind. */
  lemma StrippedIndex(data: map<string, string>)
    ensures IndexKeys(data - IndexKeys(data)) == {}
    ensures IndexValues(data - IndexKeys(data)) == {}
  {
    var rest := data - IndexKeys(data);
    assert forall k :: k in rest ==> !IsIndexKey(k);
  }

  /** Stripping the index keys a second time changes nothing: the store side of a repeated `UnSubscribeAll`. */
  lemma StripIdempotent(data: map<string, string>)
    ensures var rest := data - IndexKeys(data); rest - IndexKeys(rest) == rest
  {
    StrippedIndex(data);
  }

  /**
   * The index entries of a metadata map: what the emitter reads of a
   * subscriber's store. Entries under other keys belong to the caller.
   */
  ghost function IndexPart(data: map<string, string>): map<string, string> {
    map k | k in data && IsIndexKey(k) :: data[k]
  }

  /** Storing an index entry adds it to the index part. */
  lemma IndexPartStore(data: map<string, string>, key: string, value: string)
    requires IsIndexKey(key)
    ensures IndexPart(data[key := value]) == IndexPart(data)[key := value]
  {
  }

  /** Deleting an index entry removes it from the index part. */
  lemma IndexPartDelete(data: map<string, string>, key: string)
    requires IsIndexKey(key)
    ensures IndexPart(data - {key}) == IndexPart(data) - {key}
  {
  }

  /** Writing or deleting any other key leaves the index part as it was. */
  lemma IndexPartUntouched(data: map<string, string>, key: string, value: string)
    requires !IsIndexKey(key)
    ensures IndexPart(data[key := value]) == IndexPart(data)
    ensures IndexPart(data - {key}) == IndexPart(data)
  {
  }

  /** The index part has the store's index keys and index values, and a topic's key is in one exactly when in the other. */
  lemma IndexPartAgrees(data: map<string, string>)
    ensures IndexKeys(IndexPart(data)) == IndexKeys(data)
    ensures IndexValues(IndexPart(data)) == IndexValues(data)
    ensures forall u :: IndexKey(u) in data <==> IndexKey(u) in IndexPart(data)
  {
    forall u
      ensures IndexKey(u) in data <==> IndexKey(u) in IndexPart(data)
    {
      IndexKeyRoundTrip(u);
    }
  }

  /** The index keys of a set of topics. */
  ghost function IndexKeySet(topics: set<string>): set<string> {
    set t | t in topics :: IndexKey(t)
  }

  lemma IndexKeySetAdd(topics: set<string>, t: string)
    ensures IndexKeySet(topics + {t}) == IndexKeySet(topics) + {IndexKey(t)}
  {
  }

  /** When every index entry holds its own topic, the keys of the index values are the index keys. */
  lemma IndexKeysOfValues(md: map<string, string>)
    requires forall u :: IndexKey(u) in md ==> md[IndexKey(u)] == u
    ensures IndexKeySet(IndexValues(md)) == IndexKeys(md)
  {
    forall k | k in IndexKeys(md)
      ensures k in IndexKeySet(IndexValues(md))
    {
      IndexedTopicRoundTrip(k);
    }
    forall t | t in IndexValues(md)
      ensures IndexKey(t) in IndexKeys(md)
    {
      var k :| k in md && IsIndexKey(k) && md[k] == t;
      IndexedTopicRoundTrip(k);
    }
  }

  /**
   * What the loop of `GetTopicsBySubscriber` collects: `picked` lists the
   * index keys of `md` once each, and `topics` their values. When every
   * index entry holds its own topic, these are the indexed topics, once each.
   */
  lemma {:induction false} CollectedTopics(md: map<string, string>, picked: seq<string>, topics: seq<string>)
    requires |topics| == |picked| && NoDuplicates(picked)
    requires forall k :: k in picked <==> k in md && IsIndexKey(k)
    requires forall i :: 0 <= i < |picked| ==> picked[i] in md && topics[i] == md[picked[i]]
    ensures Elements(topics) == IndexValues(md)
    ensures |topics| == |IndexKeys(md)|
    ensures (forall u :: IndexKey(u) in md ==> md[IndexKey(u)] == u) ==>
              NoDuplicates(topics) && (forall t :: t in topics <==> IndexKey(t) in md)
  {
    assert IndexKeys(md) == set k | k in picked;
    DistinctCardinality(picked);
    forall t | t in IndexValues(md)
      ensures t in topics
    {
      var k :| k in md && IsIndexKey(k) && md[k] == t;
      var i :| 0 <= i < |picked| && picked[i] == k;
      assert topics[i] == t;
    }
    if forall u :: IndexKey(u) in md ==> md[IndexKey(u)] == u {
      forall i | 0 <= i < |picked|
        ensures IndexKey(topics[i]) == picked[i]
      {
        IndexedTopicRoundTrip(picked[i]);
      }
      forall t | IndexKey(t) in md
        ensures t in topics
      {
        IndexKeyRoundTrip(t);
        var i :| 0 <= i < |picked| && picked[i] == IndexKey(t);
      }
    }
  }

  /** The subscribers of a sequence of elements. */
  ghost function SubscribersOf(elements: seq<TopicElement>): set<StringSubscriber> {
    set e | e in elements :: e.suber
  }

  lemma NoSubscribersNoElements(elements: seq<TopicElement>)
    ensures elements == [] <==> SubscribersOf(elements) == {}
  {
    if elements != [] {
      assert elements[0].suber in SubscribersOf(elements);
    }
  }

  /** `s` and `o` carry the same id; named so that uniqueness of ids is only used where asked for. */
  ghost predicate SharesId(s: StringSubscriber, o: StringSubscriber) {
    s.id == o.id
  }

  ghost predicate SharesMd(s: StringSubscriber, o: StringSubscriber) {
    s.md == o.md
  }

  /** The index entries of the known subscribers' metadata, as values. */
  type IndexView = map<StringSubscriber, map<string, string>>

  /** The known subscribers that index `topic`. */
  ghost function IndexedBy(ix: IndexView, topic: string): set<StringSubscriber> {
    set o | o in ix && IndexKey(topic) in ix[o]
  }

  class EventEmitter {
    const bucketNum: int64
    const bucketSize: int64
    const hash: string -> uint64
    const buckets: seq<Bucket>
    /** The contents of every shard, as values. */
    ghost var Shards: seq<Table<TopicElement>>
    /** The subscribers this emitter has been handed so far, with their metadata. */
    ghost var Metadata: IndexView

    /** The shard array as `New` builds it: a power-of-two count of distinct shards. */
    ghost predicate Wired() {
      && IsPowerOfTwo(bucketNum as int) && 1 <= bucketNum <= MaxBucketNum
      && |buckets| == bucketNum as int
      && (forall i, j :: 0 <= i < j < |buckets| ==> buckets[i] != buckets[j])
    }

    /** `getBucket`'s index: `hash(topic) & (BucketNum-1)`. */
    function BucketIndex(topic: string): (i: nat)
      requires Wired()
      ensures i < |buckets|
    {
      BitAndBound(hash(topic), bucketNum as nat - 1);
      BitAnd(hash(topic), bucketNum as nat - 1)
    }

    /** Since the shard count is a power of two, the mask picks `hash(topic) mod BucketNum`. */
    lemma BucketIndexIsRemainder(topic: string)
      requires Wired()
      ensures BucketIndex(topic) == hash(topic) % bucketNum as int
    {
      MaskIsRemainder(hash(topic), bucketNum as nat);
    }

    /** `getBucket`. */
    function GetBucket(topic: string): (b: Bucket)
      requires Wired()
      ensures b in buckets
    {
      buckets[BucketIndex(topic)]
    }

    ghost function Subscribers(): set<StringSubscriber>
      reads this
    {
      Metadata.Keys
    }

    ghost function Mds(): set<Smap<string>>
      reads this
    {
      set s | s in Metadata :: s.md
    }

    /**
     * The ghost view agrees with the shards and with the index entries of
     * every known subscriber's metadata; other entries are the caller's.
     */
    ghost predicate Synced()
      reads this, buckets, Mds()
    {
      && |Shards| == |buckets|
      && (forall i :: 0 <= i < |buckets| ==> buckets[i].Topics == Shards[i])
      && (forall s :: s in Metadata ==> IndexPart(s.md.data) == Metadata[s])
    }

    /** In the shard contents `ts`, the shard of `topic` registers `id` on it. */
    ghost predicate RegisteredIn(ts: seq<Table<TopicElement>>, topic: string, id: string)
      requires Wired() && |ts| == |buckets|
    {
      var t: Table<TopicElement> := ts[BucketIndex(topic)];
      topic in t && id in t[topic]
    }

    /** Registrations are keyed by their subscriber's id, and every registered subscriber is known. */
    ghost predicate Keyed(ts: seq<Table<TopicElement>>, ix: IndexView) {
      forall i, u, id :: 0 <= i < |ts| && u in ts[i] && id in ts[i][u] ==>
        ts[i][u][id].suber.id == id && ts[i][u][id].suber in ix
    }

    /** Every registration lives in the shard its topic routes to. */
    ghost predicate Routed(ts: seq<Table<TopicElement>>)
      requires Wired()
    {
      forall i, u :: 0 <= i < |ts| && u in ts[i] ==> BucketIndex(u) == i
    }

    /** Known subscribers have ids and metadata stores of their own. */
    ghost predicate Distinct(ix: IndexView) {
      && (forall s, o {:trigger SharesId(s, o)} :: s in ix && o in ix && SharesId(s, o) ==> s == o)
      && (forall s, o {:trigger SharesMd(s, o)} :: s in ix && o in ix && SharesMd(s, o) ==> s == o)
    }

    /**
     * Each known subscriber's reverse index lists exactly the topics it is
     * registered on, and each entry holds its topic.
     */
    ghost predicate Indexes(ts: seq<Table<TopicElement>>, ix: IndexView)
      requires Wired() && |ts| == |buckets|
    {
      && (forall s, u :: s in ix ==> (RegisteredIn(ts, u, s.id) <==> IndexKey(u) in ix[s]))
      && (forall s, u :: s in ix && IndexKey(u) in ix[s] ==> ix[s][IndexKey(u)] == u)
    }

    /** The emitter's invariant on values. */
    ghost predicate Coherent(ts: seq<Table<TopicElement>>, ix: IndexView)
      requires Wired() && |ts| == |buckets|
    {
      Keyed(ts, ix) && Routed(ts) && Distinct(ix) && Indexes(ts, ix)
    }

    ghost predicate Valid()
      reads this, buckets, Mds()
    {
      Wired() && Synced() && Coherent(Shards, Metadata)
    }

    /** The shard of `topic` registers `id` on it. */
    ghost predicate Registered(topic: string, id: string)
      requires Wired()
      reads buckets
    {
      var b := GetBucket(topic);
      topic in b.Topics && id in b.Topics[topic]
    }

    /** `s` records `topic` in its reverse index. */
    ghost predicate Indexed(s: StringSubscriber, topic: string)
      reads s.md
    {
      IndexKey(topic) in s.md.data
    }

    /**
     * A subscriber the emitter can be handed: one it knows already, or a
     * newcomer whose id and metadata are its own and whose metadata has no
     * index entries.
     */
    ghost predicate Admissible(s: StringSubscriber)
      reads this, s.md
    {
      || s in Metadata
      || (&& (forall k :: k in s.md.data ==> !IsIndexKey(k))
          && (forall o :: o in Metadata ==> o.id != s.id && o.md != s.md))
    }

    /** Every registration holds a known subscriber, registered under its own id. */
    lemma RegisteredIsKnown(ts: seq<Table<TopicElement>>, ix: IndexView, topic: string, id: string)
      requires Wired() && |ts| == |buckets| && Coherent(ts, ix)
      ensures RegisteredIn(ts, topic, id) ==>
                var e := ts[BucketIndex(topic)][topic][id];
                e.suber in ix && e.suber.id == id
    {
    }

    /** No other known subscriber shares the metadata store of a known `s`. */
    lemma OwnStore(ix: IndexView, s: StringSubscriber)
      requires Distinct(ix) && s in ix
      ensures forall o :: o in ix && o != s ==> o.md != s.md
    {
      forall o | o in ix && o.md == s.md
        ensures o == s
      {
        assert SharesMd(o, s);
      }
    }

    /** Handing the emitter an admissible subscriber keeps it coherent. */
    lemma EnrolCoherent(ts: seq<Table<TopicElement>>, ix: IndexView, s: StringSubscriber, md: map<string, string>)
      requires Wired() && |ts| == |buckets| && Coherent(ts, ix)
      requires s in ix ==> ix[s] == md
      requires s !in ix ==> && (forall k :: k in md ==> !IsIndexKey(k))
                            && (forall o :: o in ix ==> o.id != s.id && o.md != s.md)
      ensures Coherent(ts, ix[s := md])
    {
      if s !in ix {
        forall u
          ensures !RegisteredIn(ts, u, s.id) && IndexKey(u) !in md
        {
          IndexKeyRoundTrip(u);
          RegisteredIsKnown(ts, ix, u, s.id);
        }
      } else {
        assert ix[s := md] == ix;
      }
    }

    /** Recording `topic` for a known `s` and registering it on the topic's shard keeps the emitter coherent. */
    lemma SubscribeCoherent(ts: seq<Table<TopicElement>>, ix: IndexView, s: StringSubscriber, topic: string, e: TopicElement)
      requires Wired() && |ts| == |buckets| && Coherent(ts, ix)
      requires s in ix && e.suber == s
      ensures var i := BucketIndex(topic);
              Coherent(ts[i := WithSubscriber(ts[i], topic, s.id, e)], ix[s := ix[s][IndexKey(topic) := topic]])
    {
      var ix' := ix[s := ix[s][IndexKey(topic) := topic]];
      SubscribeKeyed(ts, ix, s, topic, e);
      SubscribeRouted(ts, topic, s.id, e);
      assert Distinct(ix');
      SubscribeIndexes(ts, ix, s, topic, e);
    }

    lemma SubscribeKeyed(ts: seq<Table<TopicElement>>, ix: IndexView, s: StringSubscriber, topic: string, e: TopicElement)
      requires Wired() && |ts| == |buckets| && Keyed(ts, ix)
      requires s in ix && e.suber == s
      ensures var i := BucketIndex(topic);
              Keyed(ts[i := WithSubscriber(ts[i], topic, s.id, e)], ix[s := ix[s][IndexKey(topic) := topic]])
    {
    }

    lemma SubscribeRouted(ts: seq<Table<TopicElement>>, topic: string, id: string, e: TopicElement)
      requires Wired() && |ts| == |buckets| && Routed(ts)
      ensures var i := BucketIndex(topic);
              Routed(ts[i := WithSubscriber(ts[i], topic, id, e)])
    {
    }

    lemma SubscribeIndexes(ts: seq<Table<TopicElement>>, ix: IndexView, s: StringSubscriber, topic: string, e: TopicElement)
      requires Wired() && |ts| == |buckets| && Indexes(ts, ix) && Distinct(ix)
      requires s in ix
      ensures var i := BucketIndex(topic);
              Indexes(ts[i := WithSubscriber(ts[i], topic, s.id, e)], ix[s := ix[s][IndexKey(topic) := topic]])
    {
      var i := BucketIndex(topic);
      var ts' := ts[i := WithSubscriber(ts[i], topic, s.id, e)];
      var ix' := ix[s := ix[s][IndexKey(topic) := topic]];
      forall o, u | o in ix'
        ensures RegisteredIn(ts', u, o.id) <==> IndexKey(u) in ix'[o]
        ensures IndexKey(u) in ix'[o] ==> ix'[o][IndexKey(u)] == u
      {
        if u != topic && IndexKey(u) == IndexKey(topic) {
          IndexKeyInjective(u, topic);
        }
        if o.id == s.id {
          assert SharesId(o, s);
        }
        assert RegisteredIn(ts', u, o.id) <==> (u == topic && o.id == s.id) || RegisteredIn(ts, u, o.id);
      }
    }

    /** Dropping `topic` from a known `s`'s index and from its shard keeps the emitter coherent. */
    lemma UnsubscribeCoherent(ts: seq<Table<TopicElement>>, ix: IndexView, s: StringSubscriber, topic: string)
      requires Wired() && |ts| == |buckets| && Coherent(ts, ix)
      requires s in ix
      ensures var i := BucketIndex(topic);
              Coherent(ts[i := WithoutSubscriber(ts[i], topic, s.id)], ix[s := ix[s] - {IndexKey(topic)}])
    {
      var ix' := ix[s := ix[s] - {IndexKey(topic)}];
      UnsubscribeKeyed(ts, ix, s, topic);
      UnsubscribeRouted(ts, topic, s.id);
      assert Distinct(ix');
      UnsubscribeIndexes(ts, ix, s, topic);
    }

    lemma UnsubscribeKeyed(ts: seq<Table<TopicElement>>, ix: IndexView, s: StringSubscriber, topic: string)
      requires Wired() && |ts| == |buckets| && Keyed(ts, ix)
      requires s in ix
      ensures var i := BucketIndex(topic);
              Keyed(ts[i := WithoutSubscriber(ts[i], topic, s.id)], ix[s := ix[s] - {IndexKey(topic)}])
    {
    }

    lemma UnsubscribeRouted(ts: seq<Table<TopicElement>>, topic: string, id: string)
      requires Wired() && |ts| == |buckets| && Routed(ts)
      ensures var i := BucketIndex(topic);
              Routed(ts[i := WithoutSubscriber(ts[i], topic, id)])
    {
    }

    lemma UnsubscribeIndexes(ts: seq<Table<TopicElement>>, ix: IndexView, s: StringSubscriber, topic: string)
      requires Wired() && |ts| == |buckets| && Indexes(ts, ix) && Distinct(ix)
      requires s in ix
      ensures var i := BucketIndex(topic);
              Indexes(ts[i := WithoutSubscriber(ts[i], topic, s.id)], ix[s := ix[s] - {IndexKey(topic)}])
    {
      var i := BucketIndex(topic);
      var ts' := ts[i := WithoutSubscriber(ts[i], topic, s.id)];
      var ix' := ix[s := ix[s] - {IndexKey(topic)}];
      forall o, u | o in ix'
        ensures RegisteredIn(ts', u, o.id) <==> IndexKey(u) in ix'[o]
        ensures IndexKey(u) in ix'[o] ==> ix'[o][IndexKey(u)] == u
      {
        if u != topic && IndexKey(u) == IndexKey(topic) {
          IndexKeyInjective(u, topic);
        }
        if o.id == s.id {
          assert SharesId(o, s);
        }
        assert RegisteredIn(ts', u, o.id) <==> !(u == topic && o.id == s.id) && RegisteredIn(ts, u, o.id);
      }
    }

    /** Under the invariant, the shard a topic routes to keys its registrations by id. */
    lemma ShardValid(topic: string)
      requires Valid()
      ensures GetBucket(topic).Valid()
    {
    }

    /** `New`: normalise `conf` (or a zero `Config` when it is nil) and build that many empty shards. */
    constructor (conf: Config?, hash: string -> uint64)
      modifies conf
      ensures Valid() && Subscribers() == {}
      ensures this.hash == hash
      ensures conf == null ==> bucketNum == DefaultBucketNum && bucketSize == 0
      ensures conf != null ==> Normalised(old(conf.BucketNum), bucketNum)
                               && bucketSize == (if old(conf.BucketSize) <= 0 then 0 else old(conf.BucketSize))
                               && conf.BucketNum == bucketNum && conf.BucketSize == bucketSize
      ensures forall i :: 0 <= i < |buckets| ==> fresh(buckets[i]) && buckets[i].Size == bucketSize && buckets[i].Topics == map[]
    {
      var c := conf;
      if c == null {
        c := new Config();
      }
      c.Init();
      var n, size := c.BucketNum, c.BucketSize;
      var bs: seq<Bucket> := [];
      var i: int64 := 0;
      while i < n
        invariant 0 <= i <= n && |bs| == i as int
        invariant forall k :: 0 <= k < |bs| ==> fresh(bs[k]) && bs[k].Size == size && bs[k].Topics == map[]
        invariant forall k, l :: 0 <= k < l < |bs| ==> bs[k] != bs[l]
        invariant c.BucketNum == n && c.BucketSize == size
      {
        var b := new Bucket(size);
        bs := bs + [b];
        i := i + 1;
      }
      bucketNum := n;
      bucketSize := size;
      this.hash := hash;
      buckets := bs;
      Shards := seq(|bs|, k => map[]);
      Metadata := map[];
    }

    /** Take an admissible subscriber into the known ones; nothing else changes. */
    ghost method Admit(s: StringSubscriber)
      requires Valid() && Admissible(s)
      modifies this
      ensures Valid() && Metadata == old(Metadata)[s := IndexPart(s.md.data)] && Shards == old(Shards)
      ensures Subscribers() == old(Subscribers()) + {s}
    {
      EnrolCoherent(Shards, Metadata, s, IndexPart(s.md.data));
      Metadata := Metadata[s := IndexPart(s.md.data)];
    }

    /** `Subscribe` (event.go:91-94): record the topic in the subscriber's index, then register it. */
    method Subscribe(s: StringSubscriber, topic: string, f: Callback)
      requires Valid() && Admissible(s)
      modifies this, s.md, GetBucket(topic)
      ensures Valid() && Subscribers() == old(Subscribers()) + {s}
      ensures s.md.data == old(s.md.data)[IndexKey(topic) := topic]
      ensures var i := BucketIndex(topic);
              Shards == old(Shards)[i := WithSubscriber(old(Shards)[i], topic, s.id, TopicElement(s, f))]
      ensures Registered(topic, s.id) && Indexed(s, topic)
    {
      ghost var ix := Metadata[s := IndexPart(s.md.data)];
      assert ix.Keys == Metadata.Keys + {s};
      EnrolCoherent(Shards, Metadata, s, IndexPart(s.md.data));
      SubscribeCoherent(Shards, ix, s, topic, TopicElement(s, f));
      ShardValid(topic);
      OwnStore(ix, s);
      IndexKeyRoundTrip(topic);
      IndexPartStore(s.md.data, IndexKey(topic), topic);
      var b := GetBucket(topic);
      s.GetMetadata().Store(IndexKey(topic), topic);
      b.Subscribe(s, topic, f);
      Shards, Metadata := Shards[BucketIndex(topic) := b.Topics], ix[s := ix[s][IndexKey(topic) := topic]];
      forall o | o in Metadata && o != s
        ensures IndexPart(o.md.data) == Metadata[o]
      {
        assert (o.md as object) != s.md && (o.md as object) != b && (o.md as object) != this;
      }
    }

    /** `UnSubscribe` (event.go:98-101): drop the index entry, then the registration. */
    method UnSubscribe(s: StringSubscriber, topic: string)
      requires Valid() && Admissible(s)
      modifies this, s.md, GetBucket(topic)
      ensures Valid() && Subscribers() == old(Subscribers()) + {s}
      ensures s.md.data == old(s.md.data) - {IndexKey(topic)}
      ensures var i := BucketIndex(topic);
              Shards == old(Shards)[i := WithoutSubscriber(old(Shards)[i], topic, s.id)]
      ensures !Registered(topic, s.id) && !Indexed(s, topic)
    {
      ghost var ix := Metadata[s := IndexPart(s.md.data)];
      assert ix.Keys == Metadata.Keys + {s};
      EnrolCoherent(Shards, Metadata, s, IndexPart(s.md.data));
      UnsubscribeCoherent(Shards, ix, s, topic);
      ShardValid(topic);
      OwnStore(ix, s);
      IndexKeyRoundTrip(topic);
      IndexPartDelete(s.md.data, IndexKey(topic));
      var b := GetBucket(topic);
      s.GetMetadata().Delete(IndexKey(topic));
      b.UnSubscribe(s, topic);
      Shards, Metadata := Shards[BucketIndex(topic) := b.Topics], ix[s := ix[s] - {IndexKey(topic)}];
      forall o | o in Metadata && o != s
        ensures IndexPart(o.md.data) == Metadata[o]
      {
        assert (o.md as object) != s.md && (o.md as object) != b && (o.md as object) != this;
      }
    }

    /** The shard of `topic` holds a registration for it (possibly an empty one). */
    ghost predicate HasRegistration(topic: string)
      requires Wired()
      reads buckets
    {
      topic in GetBucket(topic).Topics
    }

    /** The known subscribers whose reverse index records `topic`. */
    ghost function Audience(topic: string): set<StringSubscriber>
      reads this, Mds()
    {
      set o | o in Subscribers() && Indexed(o, topic)
    }

    /** Under the invariant, a known subscriber is registered on exactly the topics it indexes. */
    lemma RegisteredIffIndexed(s: StringSubscriber, topic: string)
      requires Valid() && s in Metadata
      ensures Registered(topic, s.id) <==> Indexed(s, topic)
    {
      assert GetBucket(topic).Topics == Shards[BucketIndex(topic)];
      IndexPartAgrees(s.md.data);
    }

    /** Under the invariant, `Audience` is the index view's `IndexedBy`. */
    lemma AudienceIsIndexedBy(topic: string)
      requires Valid()
      ensures Audience(topic) == IndexedBy(Metadata, topic)
    {
      forall o | o in Metadata
        ensures Indexed(o, topic) <==> IndexKey(topic) in Metadata[o]
      {
        IndexPartAgrees(o.md.data);
      }
    }

    /** The elements a shard invokes for `topic` are those of exactly the known subscribers that index it. */
    lemma InvokedAreIndexed(ts: seq<Table<TopicElement>>, ix: IndexView, topic: string, invoked: seq<TopicElement>)
      requires Wired() && |ts| == |buckets| && Coherent(ts, ix)
      requires var t: Table<TopicElement> := ts[BucketIndex(topic)];
               && (topic !in t ==> invoked == [])
               && (topic in t ==> InvokesEachOnce(invoked, t[topic]))
      ensures SubscribersOf(invoked) == IndexedBy(ix, topic)
    {
      var t: Table<TopicElement> := ts[BucketIndex(topic)];
      forall o | o in IndexedBy(ix, topic)
        ensures o in SubscribersOf(invoked)
      {
        assert RegisteredIn(ts, topic, o.id);
        assert SharesId(t[topic][o.id].suber, o);
      }
      forall e | e in invoked
        ensures e.suber in IndexedBy(ix, topic)
      {
        var i :| 0 <= i < |invoked| && invoked[i] == e;
        assert RegisteredIn(ts, topic, e.suber.id);
      }
    }

    /** The elements `publish_e` runs the callback of are those of the indexing subscribers `checkSent` rejects. */
    lemma RejectedAreIndexed(ts: seq<Table<TopicElement>>, ix: IndexView, topic: string,
                             checkSent: StringSubscriber -> bool, invoked: seq<TopicElement>)
      requires Wired() && |ts| == |buckets| && Coherent(ts, ix)
      requires var t: Table<TopicElement> := ts[BucketIndex(topic)];
               && (topic !in t ==> invoked == [])
               && (topic in t ==> InvokesRejected(invoked, t[topic], checkSent))
      ensures SubscribersOf(invoked) == set o | o in IndexedBy(ix, topic) && !checkSent(o)
    {
      var t: Table<TopicElement> := ts[BucketIndex(topic)];
      forall o | o in IndexedBy(ix, topic) && !checkSent(o)
        ensures o in SubscribersOf(invoked)
      {
        assert RegisteredIn(ts, topic, o.id);
        assert SharesId(t[topic][o.id].suber, o);
      }
      forall e | e in invoked
        ensures e.suber in IndexedBy(ix, topic) && !checkSent(e.suber)
      {
        var i :| 0 <= i < |invoked| && invoked[i] == e;
        assert RegisteredIn(ts, topic, e.suber.id);
      }
    }

    /** `getBucket` of a topic, over the whole shard array: a step of `UnSubscribeAll`'s loop. */
    lemma DropStep(ts0: seq<Table<TopicElement>>, ts: seq<Table<TopicElement>>, id: string, done: set<string>, topic: string)
      requires Wired() && |ts0| == |buckets| && |ts| == |buckets| && Routed(ts0)
      requires forall i :: 0 <= i < |ts| ==> ts[i] == WithoutIdOn(ts0[i], id, done)
      ensures var b := BucketIndex(topic);
              forall i :: 0 <= i < |ts| ==>
                ts[b := WithoutSubscriber(ts[b], topic, id)][i] == WithoutIdOn(ts0[i], id, done + {topic})
    {
      var b := BucketIndex(topic);
      forall i | 0 <= i < |ts|
        ensures ts[b := WithoutSubscriber(ts[b], topic, id)][i] == WithoutIdOn(ts0[i], id, done + {topic})
      {
        if i == b {
          var r := WithoutSubscriber(ts[b], topic, id);
          forall u | u in r
            ensures r[u] == WithoutIdOn(ts0[i], id, done + {topic})[u]
          {
          }
        } else {
          assert topic !in ts0[i];
          assert WithoutIdOn(ts0[i], id, done) == WithoutIdOn(ts0[i], id, done + {topic});
        }
      }
    }

    /** Dropping `s`'s id from the topics it indexes drops it from every registration. */
    lemma DropAll(ts: seq<Table<TopicElement>>, ix: IndexView, s: StringSubscriber)
      requires Wired() && |ts| == |buckets| && Coherent(ts, ix) && s in ix
      ensures forall i :: 0 <= i < |ts| ==> WithoutIdOn(ts[i], s.id, IndexValues(ix[s])) == WithoutId(ts[i], s.id)
    {
      forall i | 0 <= i < |ts|
        ensures WithoutIdOn(ts[i], s.id, IndexValues(ix[s])) == WithoutId(ts[i], s.id)
      {
        forall u | u in ts[i] && s.id in ts[i][u]
          ensures u in IndexValues(ix[s])
        {
          assert RegisteredIn(ts, u, s.id);
          IndexKeyRoundTrip(u);
        }
        forall u | u in ts[i] && u !in IndexValues(ix[s])
          ensures ts[i][u] - {s.id} == ts[i][u]
        {
        }
      }
    }

    /** Once every indexed topic is dropped, `s`'s id is gone from every registration and its index is empty. */
    lemma UnsubscribedAll(ts0: seq<Table<TopicElement>>, ix0: IndexView, s: StringSubscriber,
                          md0: map<string, string>, done: set<string>, ts: seq<Table<TopicElement>>)
      requires Wired() && |ts0| == |buckets| && Coherent(ts0, ix0) && s in ix0
      requires ix0[s] == IndexPart(md0) && done == IndexValues(md0)
      requires |ts| == |ts0| && forall i :: 0 <= i < |ts| ==> ts[i] == WithoutIdOn(ts0[i], s.id, done)
      ensures forall i :: 0 <= i < |ts| ==> ts[i] == WithoutId(ts0[i], s.id)
      ensures IndexKeySet(done) == IndexKeys(md0)
    {
      IndexPartAgrees(md0);
      DropAll(ts0, ix0, s);
      IndexKeysOfValues(ix0[s]);
    }

    /**
     * An admissible subscriber's index entries each hold their own topic,
     * and it is registered on exactly the topics it indexes.
     */
    lemma AdmissibleIndex(s: StringSubscriber)
      requires Valid() && Admissible(s)
      ensures forall u :: IndexKey(u) in s.md.data ==> s.md.data[IndexKey(u)] == u
      ensures forall t :: Registered(t, s.id) <==> Indexed(s, t)
    {
      var ix := Metadata[s := IndexPart(s.md.data)];
      EnrolCoherent(Shards, Metadata, s, IndexPart(s.md.data));
      IndexPartAgrees(s.md.data);
      forall t
        ensures Registered(t, s.id) <==> Indexed(s, t)
      {
        assert GetBucket(t).Topics == Shards[BucketIndex(t)];
        assert RegisteredIn(Shards, t, s.id) <==> IndexKey(t) in ix[s];
      }
    }

    /**
     * `GetTopicsBySubscriber` (event.go:122-131): the values of the index
     * entries of `s`'s metadata, one per entry. For a subscriber the emitter
     * may be handed, these are exactly the topics it is registered on, once each.
     */
    method GetTopicsBySubscriber(s: StringSubscriber) returns (topics: seq<string>)
      requires Valid()
      ensures Valid()
      ensures Elements(topics) == IndexValues(s.md.data)
      ensures |topics| == |IndexKeys(s.md.data)|
      ensures Admissible(s) ==>
                && NoDuplicates(topics)
                && (forall t :: t in topics <==> Indexed(s, t))
                && (forall t :: t in topics <==> Registered(t, s.id))
    {
      var md := s.GetMetadata();
      var keys := md.Range((key: string, value: string) => true);
      topics := [];
      ghost var picked: seq<string> := [];
      var j := 0;
      while j < |keys|
        invariant 0 <= j <= |keys|
        invariant |topics| == |picked| && NoDuplicates(picked)
        invariant forall k :: k in picked <==> k in keys[..j] && IsIndexKey(k)
        invariant forall i :: 0 <= i < |picked| ==> picked[i] in md.data && topics[i] == md.data[picked[i]]
      {
        var key := keys[j];
        if IsIndexKey(key) {
          topics := topics + [md.data[key]];
          picked := picked + [key];
        }
        j := j + 1;
      }
      assert keys[..j] == keys;
      if Admissible(s) {
        AdmissibleIndex(s);
      }
      CollectedTopics(md.data, picked, topics);
    }

    /**
     * The loop of `UnSubscribeAll` (event.go:114-117): for each collected
     * topic, drop its index entry and its registration, as `UnSubscribe` does.
     */
    method UnSubscribeEach(s: StringSubscriber, topics: seq<string>)
      requires Valid() && s in Metadata
      modifies this, s.md, buckets
      ensures Valid() && s in Metadata && Subscribers() == old(Subscribers())
      ensures s.md.data == old(s.md.data) - IndexKeySet(Elements(topics))
      ensures |Shards| == |old(Shards)|
      ensures forall i :: 0 <= i < |Shards| ==> Shards[i] == WithoutIdOn(old(Shards)[i], s.id, Elements(topics))
    {
      ghost var md0, ts0 := s.md.data, Shards;
      ghost var done: set<string> := {};
      ghost var gone: set<string> := {};
      var j := 0;
      while j < |topics|
        invariant 0 <= j <= |topics|
        invariant Valid() && s in Metadata && Subscribers() == old(Subscribers())
        invariant done == Elements(topics[..j])
        invariant gone == IndexKeySet(done)
        invariant s.md.data == md0 - gone
        invariant |Shards| == |ts0|
        invariant forall i :: 0 <= i < |Shards| ==> Shards[i] == WithoutIdOn(ts0[i], s.id, done)
      {
        DropStep(ts0, Shards, s.id, done, topics[j]);
        MapRemoveTwice(md0, gone, IndexKey(topics[j]));
        SetAbsorb(Subscribers(), s);
        UnSubscribe(s, topics[j]);
        ElementsSnoc(topics, j);
        IndexKeySetAdd(done, topics[j]);
        done, gone := done + {topics[j]}, gone + {IndexKey(topics[j])};
        j := j + 1;
      }
      assert topics[..j] == topics;
    }

    /**
     * `UnSubscribeAll` (event.go:105-118): collect the indexed topics, then
     * for each drop the index entry and the registration, which is the body
     * of `UnSubscribe`. Afterwards `s` has no index entries and is registered
     * nowhere, and every other registration is as it was.
     */
    method UnSubscribeAll(s: StringSubscriber)
      requires Valid() && Admissible(s)
      modifies this, s.md, buckets
      ensures Valid() && Subscribers() == old(Subscribers()) + {s}
      ensures s.md.data == old(s.md.data) - IndexKeys(old(s.md.data))
      ensures |Shards| == |old(Shards)|
      ensures forall i :: 0 <= i < |Shards| ==> Shards[i] == WithoutId(old(Shards)[i], s.id)
      ensures forall topic :: !Registered(topic, s.id) && !Indexed(s, topic)
    {
      var topics := GetTopicsBySubscriber(s);
      Admit(s);
      ghost var md0, ts0, ix0 := s.md.data, Shards, Metadata;
      UnSubscribeEach(s, topics);
      UnsubscribedAll(ts0, ix0, s, md0, Elements(topics), Shards);
      forall topic
        ensures !Registered(topic, s.id) && !Indexed(s, topic)
      {
        IndexKeyRoundTrip(topic);
        RegisteredIffIndexed(s, topic);
      }
    }

    /**
     * `CountSubscriberByTopic` (event.go:135-137): the size of the topic's
     * registration on its shard; zero exactly when nobody is registered on it.
     */
    function CountSubscriberByTopic(topic: string): (n: nat)
      requires Wired()
      reads buckets
      ensures n == 0 <==> forall id :: !Registered(topic, id)
    {
      SomeoneRegistered(topic);
      GetBucket(topic).CountTopicSubscriber(topic)
    }

    lemma SomeoneRegistered(topic: string)
      requires Wired()
      ensures GetBucket(topic).CountTopicSubscriber(topic) != 0 ==> exists id :: Registered(topic, id)
    {
      var b := GetBucket(topic);
      if topic in b.Topics && b.Topics[topic] != map[] {
        var id :| id in b.Topics[topic];
        assert Registered(topic, id);
      }
    }

    /** The count a shard reports is the number of known subscribers that index the topic. */
    lemma CountMatchesReverseIndex(topic: string)
      requires Valid()
      ensures CountSubscriberByTopic(topic) == |Audience(topic)|
    {
      var t: Table<TopicElement> := Shards[BucketIndex(topic)];
      var a := IndexedBy(Metadata, topic);
      assert Audience(topic) == a;
      assert GetBucket(topic).Topics == t;
      var idOf := (o: StringSubscriber) => o.id;
      if topic in t {
        forall id | id in t[topic]
          ensures exists o :: o in a && idOf(o) == id
        {
          assert RegisteredIn(Shards, topic, id);
          assert t[topic][id].suber in a;
        }
        forall o | o in a
          ensures o.id in t[topic]
        {
          assert RegisteredIn(Shards, topic, o.id);
        }
        forall x, y | x in a && y in a && idOf(x) == idOf(y)
          ensures x == y
        {
          assert SharesId(x, y);
        }
        InjectiveImageCardinality(a, idOf, t[topic].Keys);
      } else {
        assert forall o :: o in a ==> RegisteredIn(Shards, topic, o.id);
      }
    }

    /**
     * `status` reports the topics of the first `k` shards of `ts`: each once,
     * with the count of its registration.
     */
    ghost predicate StatusCovers(ts: seq<Table<TopicElement>>, status: seq<Registry.TopicStatus>, k: nat)
      requires Wired() && |ts| == |buckets|
    {
      && (forall i, j :: 0 <= i < j < |status| ==> status[i].topic != status[j].topic)
      && (forall i :: 0 <= i < |status| ==>
            var b := BucketIndex(status[i].topic);
            b < k && status[i].topic in ts[b] && status[i].count == Count(ts[b], status[i].topic))
      && (forall i, u :: 0 <= i < k && i < |ts| && u in ts[i] ==> u in TopicsOf(status))
    }

    /** Appending the report of shard `k` extends the coverage to shard `k`. */
    lemma StatusStep(ts: seq<Table<TopicElement>>, status: seq<Registry.TopicStatus>, k: nat, rows: seq<Registry.TopicStatus>)
      requires Wired() && |ts| == |buckets| && k < |ts| && Routed(ts)
      requires StatusCovers(ts, status, k) && Reports(rows, ts[k])
      ensures StatusCovers(ts, status + rows, k + 1)
    {
      TopicsOfConcat(status, rows);
      var all := status + rows;
      forall i | 0 <= i < |all|
        ensures var b := BucketIndex(all[i].topic);
                b < k + 1 && all[i].topic in ts[b] && all[i].count == Count(ts[b], all[i].topic)
      {
        if i >= |status| {
          assert all[i] == rows[i - |status|];
        }
      }
      forall i, j | 0 <= i < j < |all|
        ensures all[i].topic != all[j].topic
      {
        if i < |status| && j >= |status| {
          assert all[j] == rows[j - |status|];
        } else if i >= |status| {
          assert all[i] == rows[i - |status|] && all[j] == rows[j - |status|];
        }
      }
    }

    /**
     * `TopicStatus` (event.go:139-145): the reports of the shards, concatenated
     * in shard order. Every topic that has a registration appears once, with
     * the count `CountSubscriberByTopic` gives for it.
     */
    method TopicStatus() returns (status: seq<Registry.TopicStatus>)
      requires Valid()
      ensures forall i, j :: 0 <= i < j < |status| ==> status[i].topic != status[j].topic
      ensures forall i :: 0 <= i < |status| ==>
                HasRegistration(status[i].topic) && status[i].count == CountSubscriberByTopic(status[i].topic)
      ensures forall u :: HasRegistration(u) ==> u in TopicsOf(status)
    {
      status := [];
      var k := 0;
      while k < |buckets|
        invariant 0 <= k <= |buckets| && StatusCovers(Shards, status, k)
      {
        var rows := buckets[k].TopicStatus();
        StatusStep(Shards, status, k, rows);
        status := status + rows;
        k := k + 1;
      }
      forall u
        ensures HasRegistration(u) == (u in Shards[BucketIndex(u)])
        ensures CountSubscriberByTopic(u) == Count(Shards[BucketIndex(u)], u)
      {
        assert GetBucket(u).Topics == Shards[BucketIndex(u)];
      }
    }

    /**
     * `Publish` (event.go:79-81): every subscriber registered on `topic`
     * has its callback run once, so the callbacks reached are those of the
     * known subscribers that index `topic`.
     */
    method Publish(topic: string) returns (invoked: seq<TopicElement>)
      requires Valid()
      ensures !HasRegistration(topic) ==> invoked == []
      ensures HasRegistration(topic) ==> InvokesEachOnce(invoked, GetBucket(topic).Topics[topic])
      ensures SubscribersOf(invoked) == Audience(topic)
    {
      ShardValid(topic);
      invoked := GetBucket(topic).Publish(topic);
      InvokedAreIndexed(Shards, Metadata, topic, invoked);
      AudienceIsIndexedBy(topic);
    }

    /**
     * `PublishE` (event.go:83-87): `checkSent` is asked once for every
     * subscriber registered on `topic`; the callback (followed by `f`) runs
     * for those it rejects.
     */
    method PublishE(topic: string, checkSent: StringSubscriber -> bool)
      returns (checked: seq<TopicElement>, invoked: seq<TopicElement>)
      requires Valid()
      ensures !HasRegistration(topic) ==> checked == [] && invoked == []
      ensures HasRegistration(topic) ==> InvokesEachOnce(checked, GetBucket(topic).Topics[topic])
      ensures HasRegistration(topic) ==> InvokesRejected(invoked, GetBucket(topic).Topics[topic], checkSent)
      ensures SubscribersOf(checked) == Audience(topic)
      ensures SubscribersOf(invoked) == set o | o in Audience(topic) && !checkSent(o)
    {
      ShardValid(topic);
      checked, invoked := GetBucket(topic).PublishE(topic, checkSent);
      InvokedAreIndexed(Shards, Metadata, topic, checked);
      RejectedAreIndexed(Shards, Metadata, topic, checkSent, invoked);
      AudienceIsIndexedBy(topic);
    }
  }
}
