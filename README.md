# event_emitter: a verified model of the topic registry

This project models the in-memory topic registry of the Go package
`event_emitter` and proves properties of it. The package is a
publish/subscribe emitter. Subscribers register callbacks on string topics.
The registry is split into a power-of-two number of shards ("buckets"), and
a topic's shard is picked by masking a hash of the topic. Each shard maps a
topic to its registration, a map from subscriber id to the subscriber and
its callback. Each subscriber also keeps a reverse index in its own
metadata store: the key `"sub-topic-" + topic` maps to `topic`. This index
is how the emitter lists or drops a subscriber's topics without scanning
every shard.

The model is sequential. Every operation is atomic, and locks are not
modelled.

| file | module | models |
|---|---|---|
| `collections.dfy` | `Collections` | facts about sequences, sets and maps shared by the other modules |
| `types.dfy` | `Types` | `smap` (`Load`, `Store`, `Delete`, `Range`), `StringSubscriber`, `topicElement`, `topicField` (types.go) |
| `registry.dfy` | `Registry` | a shard's topic table as a value, and what subscribe and unsubscribe do to it |
| `configuration.dfy` | `Configuration` | `Config`, `Config.init`, `toBinaryNumber`, and the shard mask as arithmetic |
| `shard.dfy` | `Shard` | `bucket` and its operations, as a class over its `Topics` map |
| `emitter.dfy` | `Emitter` | `EventEmitter`: `New`, `getBucket` and the façade methods |
| `scenarios.dfy` | `Scenarios` | the scenarios of event_test.go, replayed against the model |

The emitter class keeps two ghost mirrors:
- `Shards`: the contents of every shard, as values;
- `Metadata`: the subscribers it has been handed, with the index entries (the `sub-topic-` keys) of their metadata. Entries under other keys belong to the caller: the prefix filter of `GetTopicsBySubscriber` and `UnSubscribeAll` skips them, so a caller may store them at any time.

Its invariant `Valid()` has these parts:
- every registration is keyed by its subscriber's id;
- every registration lives in the shard its topic routes to;
- known subscribers have distinct ids and distinct metadata stores;
- the ghost `Metadata` of each known subscriber is exactly the index part of its store;
- the reverse index holds the key for topic T exactly when the subscriber's id is registered on T. Each index entry holds its own topic as its value.

`Subscribe`, `UnSubscribe` and `UnSubscribeAll` preserve this invariant.
The queries are proved against it.

The topic hash (`maphash.String` with the seed `New` draws) is the
constructor parameter `hash: string -> uint64`. No property depends on
which hash it is.

Go's map iteration order is unspecified. So `Range`, `publish` and
`TopicStatus` pick the next key nondeterministically (`:|`), and no
contract depends on the order chosen.

## Model

| member | source | states |
|---|---|---|
| Types.Smap.constructor | types.go:51 | `newSmap` gives an empty store, and no key loads from it |
| Types.Smap.Load | types.go:58-63 | `Load(k)` is `Some(v)` exactly when `k` is stored, and then `v` is its value (Go's `(v, true)`); otherwise `None` |
| Types.Smap.Store | types.go:71-75 | after `Store(k, v)` the store is the old one with `k` bound to `v`, and `Load(k) == Some(v)`; every other key keeps its binding |
| Types.Smap.Delete | types.go:65-69 | after `Delete(k)` the store is the old one without `k`, and `Load(k) == None`; other keys keep their bindings, and deleting an absent key changes nothing |
| Types.Smap.Range | types.go:77-86 | visits stored keys, each at most once; every visit but the last returned true; a key is left unvisited only if the last visit returned false; with an always-true visitor, exactly the stored keys are visited |
| Types.StringSubscriber.constructor | types.go:34-49 | `GetSubscriberID` returns the given id; `GetMetadata` returns a fresh, empty store |
| Registry.Count | event.go:230-239 | the count is 0 exactly when the topic has no registration or an empty one; otherwise it is the number of registered ids |
| Registry.WithSubscriber | event.go:159-175 | subscribing creates the topic's registration if it is absent; afterwards the id maps to the new element; other ids and other topics keep their entries |
| Registry.WithoutSubscriber | event.go:220-228 | unsubscribing removes only the id, from that topic's registration only; the topic key itself stays |
| Registry.WithoutId | event.go:105-118 | the id is gone from every registration; the topics and every other entry stay |
| Registry.SubscribeCount | event.go:159-175 | subscribing adds one to the topic's count, unless the id was already registered on it |
| Registry.ResubscribeOverwrites | event.go:174 | subscribing the same id twice equals subscribing it once with the later element |
| Registry.UnsubscribeCount | event.go:220-228 | unsubscribing takes one from the count exactly when the id was registered |
| Registry.UnsubscribeAbsent | event.go:224-227 | unsubscribing from an absent topic, or an id the topic does not hold, changes nothing |
| Registry.UnsubscribeIdempotent | event.go:220-228 | a second unsubscribe of the same id from the same topic changes nothing |
| Registry.EmptyRegistrationPersists | event.go:220-228 | after subscribing and then unsubscribing the only subscriber, the topic stays, with an empty registration and count 0 |
| Registry.WithoutIdIdempotent | event.go:105-118 | dropping an id everywhere twice is the same as dropping it once |
| Registry.WithoutAbsentId | event.go:105-118 | dropping an id that is registered nowhere changes nothing |
| Registry.TopicsOfConcat | event.go:139-145 | the topics reported by a concatenation are the union of the topics of its parts |
| Configuration.ToBinaryNumber | event.go:241-247 | the result is a power of two in [1, 2^62]; for n <= 2^62 it is the least power of two >= max(n, 1); above 2^62 it is 2^62 (corrected form, see Findings) |
| Configuration.Config.constructor | event.go:43 | `new(Config)` has both fields 0 |
| Configuration.Config.Init | event.go:23-31 | `BucketNum` becomes a power of two in range (for a request above 2^62 only because the corrected `ToBinaryNumber` caps it; the source's `init` never returns there, see Findings); a non-positive request becomes 16; a request in range becomes the least power of two not below it; a negative `BucketSize` becomes 0, and any other value is kept |
| Configuration.DoubleWrapped | event.go:244 | Go's `x *= 2` on `int64` gives exactly `2x` whenever `2x` fits in an `int64` |
| Configuration.AsWrittenStates | event.go:242-245 | the values the loop as written goes through: 2^k up to k = 62, then -2^63, then 0 for ever |
| Configuration.AsWrittenLoopNeverExits | event.go:241-247 | for a request above 2^62 the loop guard `x < n` holds in every reachable state |
| Configuration.AsWrittenState | event.go:242-245 | the value of `x` after `k` rounds of `x *= 2` on `int64`, starting from 1 |
| Configuration.LeastExponent | event.go:241-247 | every request in [1, 2^62] has a least power of two not below it, 2^k with k <= 62 |
| Configuration.AsWrittenAgreesUpToMax | event.go:241-247 | for every request in [1, 2^62] there is a k <= 62 at which the loop as written first reaches `x >= n`, and `x` is then the least power of two not below the request, as the corrected loop returns |
| Configuration.Config.Of | event_test.go:118 | `&Config{BucketNum: b, BucketSize: s}` has exactly the given fields |
| Configuration.BitAnd | event.go:73 | Go's `&` on the non-negative hash and mask, bit by bit from the least significant |
| Configuration.BitAndBound | event.go:73 | `a & b` never exceeds `b` |
| Configuration.MaskIsRemainder | event.go:73 | for a power-of-two `n`, `h & (n-1)` is `h mod n` |
| Shard.Bucket.constructor | event.go:49-53 | a new shard has the given size hint and no topics |
| Shard.Bucket.Subscribe | event.go:159-175 | the new `Topics` is `WithSubscriber` of the old, for the subscriber's id and a new element |
| Shard.Bucket.UnSubscribe | event.go:220-228 | the new `Topics` is `WithoutSubscriber` of the old, for the subscriber's id |
| Shard.Bucket.CountTopicSubscriber | event.go:230-239 | 0 for an absent topic, otherwise the number of registered ids |
| Shard.Bucket.TopicStatus | event.go:177-186 | one row per topic of the shard, empty registrations included, each with that topic's count and no topic twice |
| Shard.Bucket.Publish | event.go:188-199 | an absent topic invokes nothing; otherwise every registered element is invoked exactly once and nothing else is |
| Shard.Bucket.PublishE | event.go:201-217 | `checkSent` is asked once for every registered element; the callback (and then `f`) runs exactly for the elements it rejects, each once |
| Emitter.IndexKey | event.go:92 | the reverse-index key of a topic: the prefix `subTopic` (`"sub-topic-"`, event.go:11) followed by the topic |
| Emitter.IsIndexKey | event.go:109 | `strings.HasPrefix(key, subTopic)` |
| Emitter.IndexedTopic | event.go:109-110 | the topic an index key stands for: the key with the prefix removed |
| Emitter.IndexPartStore | event.go:92 | storing an index entry adds exactly that entry to the store's index part |
| Emitter.IndexPartDelete | event.go:99 | deleting an index key removes exactly that entry from the store's index part |
| Emitter.IndexPartUntouched | types.go:65-75 | storing or deleting a key outside the prefix leaves the index part as it was |
| Emitter.IndexPartAgrees | event.go:109 | the index part has the same index keys and values as the store, and holds a topic's key exactly when the store does |
| Emitter.IndexKeyRoundTrip | event.go:92 | `"sub-topic-" + topic` has the index prefix, and stripping the prefix gives `topic` back |
| Emitter.IndexedTopicRoundTrip | event.go:109 | a key with the index prefix is the index key of the topic it stands for |
| Emitter.IndexKeyInjective | event.go:92 | different topics get different index keys |
| Emitter.StrippedIndex | event.go:105-118 | a store whose index keys are removed indexes no topic; this is what `UnSubscribeAll` leaves behind |
| Emitter.StripIdempotent | event.go:105-118 | removing the index keys a second time changes nothing: the store side of a repeated `UnSubscribeAll` |
| Emitter.IndexKeysOfValues | event.go:105-118 | when every index entry holds its own topic, the keys of the indexed topics are exactly the store's index keys |
| Emitter.CollectedTopics | event.go:122-131 | the values the prefix filter collects are the store's index values, one per index key; when each entry holds its own topic, they are the indexed topics, each once |
| Emitter.EventEmitter.BucketIndex | event.go:72-75 | `hash(topic) & (BucketNum-1)` is always a valid shard index |
| Emitter.EventEmitter.BucketIndexIsRemainder | event.go:73 | the shard index is `hash(topic) mod BucketNum` |
| Emitter.EventEmitter.GetBucket | event.go:72-75 | `getBucket` returns one of the emitter's shards |
| Emitter.EventEmitter.constructor | event.go:41-61 | `New` normalises the given config (or a zero config for nil) in place, as `Config.init` does (with the capped `ToBinaryNumber`: for `BucketNum` above 2^62 the source's `New` never returns, see Findings), and builds exactly `BucketNum` distinct, fresh, empty shards with the size hint; the invariant holds |
| Emitter.EventEmitter.RegisteredIsKnown | event.go:159-175 | under the invariant, every registration holds a known subscriber, under its own id |
| Emitter.EventEmitter.EnrolCoherent | event.go:91-94 | handing the emitter an admissible subscriber keeps the invariant |
| Emitter.EventEmitter.SubscribeCoherent | event.go:91-94 | recording the index entry and registering the subscriber together keep the invariant |
| Emitter.EventEmitter.UnsubscribeCoherent | event.go:98-101 | removing the index entry and the registration together keep the invariant |
| Emitter.EventEmitter.Subscribe | event.go:91-94 | the index gains `"sub-topic-"+topic -> topic`; the topic's shard gains the element; all other shards are unchanged; afterwards the subscriber is registered and indexed; the invariant is kept |
| Emitter.EventEmitter.UnSubscribe | event.go:98-101 | the index loses the key of the topic; the topic's shard drops the id; afterwards the subscriber is neither registered nor indexed; the invariant is kept |
| Emitter.EventEmitter.RegisteredIffIndexed | event.go:91-101 | under the invariant, a known subscriber is registered on a topic exactly when its metadata holds that topic's index key |
| Emitter.EventEmitter.AdmissibleIndex | event.go:122-131 | an admissible subscriber's index entries each hold their own topic, and it is registered on exactly the topics it indexes |
| Emitter.EventEmitter.GetTopicsBySubscriber | event.go:122-131 | the result holds exactly the values of the index keys, one per key; for an admissible subscriber, each topic appears once, and a topic is listed exactly when the subscriber is indexed on it and exactly when it is registered on it |
| Emitter.EventEmitter.DropAll | event.go:114-117 | removing the id from the registrations of all indexed topics is removing it from every registration |
| Emitter.EventEmitter.UnSubscribeEach | event.go:114-117 | after the loop over the collected topics, the store has lost the index key of each of them, and every shard has lost the id on each of them and nothing else; the invariant is kept |
| Emitter.EventEmitter.UnsubscribedAll | event.go:114-117 | once the loop has handled every collected topic, every shard has lost the id, and the keys removed are the store's index keys |
| Emitter.EventEmitter.UnSubscribeAll | event.go:105-118 | the store loses exactly its index keys; every shard drops the subscriber's id everywhere and nothing else; afterwards the subscriber is neither registered nor indexed on any topic; the invariant is kept |
| Emitter.EventEmitter.CountSubscriberByTopic | event.go:135-137 | the count is 0 exactly when no id is registered on the topic |
| Emitter.EventEmitter.CountMatchesReverseIndex | event.go:135-137 | under the invariant, the count is the number of known subscribers whose reverse index holds the topic |
| Emitter.EventEmitter.StatusStep | event.go:141-143 | appending a shard's report extends a report of the earlier shards to one that covers this shard too |
| Emitter.EventEmitter.TopicStatus | event.go:139-145 | every topic with a registration (empty ones included) in any shard is listed exactly once, each with `CountSubscriberByTopic` of it |
| Emitter.EventEmitter.AudienceIsIndexedBy | event.go:188-199 | under the invariant, the subscribers that hold a topic's index key are the ones the ghost index lists |
| Emitter.EventEmitter.InvokedAreIndexed | event.go:188-199 | the subscribers a publish reaches are exactly the known subscribers whose reverse index holds the topic |
| Emitter.EventEmitter.RejectedAreIndexed | event.go:201-217 | the subscribers whose callback `publish_e` runs are exactly the indexing subscribers `checkSent` rejects |
| Emitter.EventEmitter.Publish | event.go:79-81 | a topic without a registration invokes nothing; otherwise each of its registered elements is invoked once; the subscribers reached are those whose reverse index holds the topic |
| Emitter.EventEmitter.PublishE | event.go:83-87 | `checkSent` is asked once for each subscriber of the topic; the callback and `f` run once for each subscriber `checkSent` rejects, and for no other |
| Scenarios.RangeStopsAtFirstRefusal | event_test.go:211-222 | with two entries and a refusing visitor, exactly one key is visited (which one is not fixed) |
| Scenarios.StoreTwice | types.go:71-75 | storing a key twice leaves one entry, holding the later value |
| Scenarios.SingleShard | event_test.go:118 | `New(&Config{BucketNum: 1})` has one shard, and every topic routes to it |
| Scenarios.DefaultShards | event_test.go:15 | `New(nil)` has 16 empty shards and size hint 0 |
| Scenarios.SubscribeTwo | event_test.go:15-33 | after the subscriptions of the "ok" test, both reverse indexes hold exactly their topics |
| Scenarios.PublishReachesBoth | event_test.go:35 | publishing "test" reaches both subscribers |
| Scenarios.CountIsTwo | event_test.go:36 | two subscribers count for "test" |
| Scenarios.TopicsOfEach | event_test.go:37-38 | the first subscriber's topics are "test" and "oh", and the second's are exactly `["test"]` |
| Scenarios.PublishUnknownTopic | event_test.go:39 | publishing `""` invokes nothing |
| Scenarios.TopicsAfterUnsubscribe | event_test.go:185-187 | the topic list is {topic1, topic2, topic3}, then {topic2, topic3} after unsubscribing topic1 |
| Scenarios.UnsubscribeAllTwice | event_test.go:188-192 | after `UnSubscribeAll` the topic list is empty, and after a second call nobody counts for "topic0" |
| Scenarios.UnsubscribeOneOfTwo | event_test.go:195-207 | after one of two subscribers leaves "chat", the count is 1; the leaver's metadata no longer holds the topic, and the other's still does |
| Scenarios.NoteBesideIndex | types.go:71-75 | a caller's own entry in a subscribed store (outside the prefix) keeps the emitter's invariant, and publishing "chat" still reaches both subscribers |

## Left out

- Locking: the `sync.Mutex` of a bucket and the `sync.RWMutex` of `smap` are not modelled. Every operation is atomic, so the way other shards can observe `UnSubscribeAll` while it is still running is not modelled either.
- The hash: `maphash.String` and the seed `New` draws are replaced by the constructor parameter `hash`.
- `NewSubscriber` is not modelled, because it draws random ids (`rand.Int63`). Subscribers are built with caller-supplied ids.
- Callbacks, the published `msg`, callback errors and the error handed to `f`: a callback is an opaque handle. `publish` and `publish_e` return the elements whose callbacks run, in the order they run.
- `BucketSize` is a capacity hint for `make`, so it is only normalised and stored.
- Metadata values: the model stores strings. The Go store holds `any`, and `UnSubscribeAll` and `GetTopicsBySubscriber` would panic on an index key whose value is not a string (`value.(string)`). That panic is not modelled.
- Only `Subscriber[T]` as implemented by `StringSubscriber` is modelled. Other implementations of the interface are not.
- Iteration order of Go maps: chosen nondeterministically and never specified. The Range test expects the visited key to be "1", which depends on that order. `Scenarios.RangeStopsAtFirstRefusal` proves only that exactly one key is visited.
- Emitter.EventEmitter.Subscribe: requires an `Admissible` subscriber, which the source does not check. The subscriber must be known already, or be a newcomer with an id and a metadata store no known subscriber shares, and with no index keys in its metadata. Without this, the reverse index cannot agree with the shards, which is the property the tests check.
- Emitter.EventEmitter.UnSubscribe: requires an `Admissible` subscriber, for the same reason.
- Emitter.EventEmitter.UnSubscribeAll: requires an `Admissible` subscriber, for the same reason.
- Emitter.EventEmitter.GetTopicsBySubscriber: its per-topic guarantees (each topic once, listed exactly when indexed and registered) are stated only for admissible subscribers. For any subscriber it fixes the set of collected values and their number, not how often each value occurs.
- `TopicStatus` returns `[]*TopicStatus`; the model returns the rows as values.

## Findings

| source | as written | input that shows it | evidently intended | confidence | as-written member | corrected member |
|---|---|---|---|---|---|---|
| event.go:241-247 | `for x < n { x *= 2 }` on `int64`: past 2^62 the doubling wraps to -2^63 and then to 0, and stays 0, so `x < n` holds for ever | `Config{BucketNum: 2^62 + 1}` passed to `New`: `toBinaryNumber` never returns | the least power of two not below `n`, capped at the largest `int64` power of two (2^62) | not executed | Configuration.AsWrittenLoopNeverExits | Configuration.ToBinaryNumber |
