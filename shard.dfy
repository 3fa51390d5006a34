/**
 * One shard of the registry (`bucket` in event.go:147-239). Its mutex is not
 * modelled: each operation is atomic. The `*topicField` references of the Go
 * map never leave the shard, so a registration is kept here as a map value.
 */
module Shard {
  import opened Types
  import opened Registry

  class Bucket {
    /** The capacity hint for new registrations; it has no observable effect. */
    const Size: int64
    var Topics: Table<TopicElement>

    /** A registration is keyed by the id of the subscriber it holds. */
    ghost predicate Valid()
      reads this
    {
      forall topic, id :: topic in Topics && id in Topics[topic] ==> Topics[topic][id].suber.id == id
    }

    constructor (size: int64)
      ensures Valid() && Size == size && Topics == map[]
    {
      Size := size;
      Topics := map[];
    }

    /** `bucket.subscribe` (event.go:159-175). */
    method Subscribe(suber: StringSubscriber, topic: string, f: Callback)
      requires Valid()
      modifies this
      ensures Valid()
      ensures Topics == WithSubscriber(old(Topics), topic, suber.id, TopicElement(suber, f))
    {
      var subId := suber.GetSubscriberID();
      var ele := TopicElement(suber, f);
      if topic !in Topics {
        var t: TopicField := map[];
        t := t[subId := ele];
        Topics := Topics[topic := t];
        return;
      }
      Topics := Topics[topic := Topics[topic][subId := ele]];
    }

    /** `bucket.unSubscribe` (event.go:220-228). */
    method UnSubscribe(suber: StringSubscriber, topic: string)
      requires Valid()
      modifies this
      ensures Valid()
      ensures Topics == WithoutSubscriber(old(Topics), topic, suber.id)
    {
      if topic in Topics {
        Topics := Topics[topic := Topics[topic] - {suber.GetSubscriberID()}];
      }
    }

    /** `bucket.countTopicSubscriber` (event.go:230-239). */
    function CountTopicSubscriber(topic: string): (n: nat)
      reads this
      ensures topic !in Topics ==> n == 0
      ensures topic in Topics ==> n == |Topics[topic].Keys|
    {
      Count(Topics, topic)
    }

    /** `bucket.TopicStatus` (event.go:177-186): one row per topic, empty ones included. */
    method TopicStatus() returns (status: seq<Registry.TopicStatus>)
      ensures Reports(status, Topics)
    {
      status := [];
      var remaining := Topics.Keys;
      while remaining != {}
        invariant remaining <= Topics.Keys
        invariant forall i, j :: 0 <= i < j < |status| ==> status[i].topic != status[j].topic
        invariant forall i :: 0 <= i < |status| ==>
                    status[i].topic in Topics && status[i].topic !in remaining
                    && status[i].count == Count(Topics, status[i].topic)
        invariant forall u :: u in Topics && u !in remaining ==> u in TopicsOf(status)
        decreases remaining
      {
        var topic :| topic in remaining;
        status := status + [Registry.TopicStatus(topic, |Topics[topic]|)];
        remaining := remaining - {topic};
      }
    }

    /**
     * `bucket.publish` (event.go:188-199): the elements whose callback is
     * invoked, in invocation order. An absent topic invokes nothing;
     * otherwise every element of its registration is invoked exactly once.
     */
    method Publish(topic: string) returns (invoked: seq<TopicElement>)
      requires Valid()
      ensures topic !in Topics ==> invoked == []
      ensures topic in Topics ==> InvokesEachOnce(invoked, Topics[topic])
    {
      invoked := [];
      if topic !in Topics {
        return;
      }
      var subers := Topics[topic];
      var remaining := subers.Keys;
      while remaining != {}
        invariant remaining <= subers.Keys
        invariant forall i :: 0 <= i < |invoked| ==>
                    invoked[i].suber.id in subers && invoked[i].suber.id !in remaining
                    && subers[invoked[i].suber.id] == invoked[i]
        invariant forall i, j :: 0 <= i < j < |invoked| ==> invoked[i].suber.id != invoked[j].suber.id
        invariant forall id :: id in subers && id !in remaining ==> subers[id] in invoked
        decreases remaining
      {
        var id :| id in remaining;
        invoked := invoked + [subers[id]];
        remaining := remaining - {id};
      }
    }

    /**
     * `bucket.publish_e` (event.go:201-217): `checkSent` is asked once for
     * every subscriber (`checked`); the callback and then `f` run for those
     * it rejects (`invoked`, in order).
     */
    method PublishE(topic: string, checkSent: StringSubscriber -> bool)
      returns (checked: seq<TopicElement>, invoked: seq<TopicElement>)
      requires Valid()
      ensures topic !in Topics ==> checked == [] && invoked == []
      ensures topic in Topics ==> InvokesEachOnce(checked, Topics[topic])
      ensures topic in Topics ==> InvokesRejected(invoked, Topics[topic], checkSent)
    {
      checked, invoked := [], [];
      if topic !in Topics {
        return;
      }
      var subers := Topics[topic];
      var remaining := subers.Keys;
      while remaining != {}
        invariant remaining <= subers.Keys
        invariant forall i :: 0 <= i < |checked| ==>
                    checked[i].suber.id in subers && checked[i].suber.id !in remaining
                    && subers[checked[i].suber.id] == checked[i]
        invariant forall i, j :: 0 <= i < j < |checked| ==> checked[i].suber.id != checked[j].suber.id
        invariant forall id :: id in subers && id !in remaining ==> subers[id] in checked
        invariant forall i :: 0 <= i < |invoked| ==>
                    invoked[i].suber.id in subers && invoked[i].suber.id !in remaining
                    && subers[invoked[i].suber.id] == invoked[i] && !checkSent(invoked[i].suber)
        invariant forall i, j :: 0 <= i < j < |invoked| ==> invoked[i].suber.id != invoked[j].suber.id
        invariant forall id :: id in subers && id !in remaining && !checkSent(subers[id].suber) ==> subers[id] in invoked
        decreases remaining
      {
        var id :| id in remaining;
        var v := subers[id];
        checked := checked + [v];
        if !checkSent(v.suber) {
          invoked := invoked + [v];
        }
        remaining := remaining - {id};
      }
    }
  }

  /**
   * `invoked` calls every element of `subers` exactly once and nothing else:
   * one entry per registered id, each the element registered under it.
   */
  ghost predicate InvokesEachOnce(invoked: seq<TopicElement>, subers: TopicField) {
    && (forall i :: 0 <= i < |invoked| ==> invoked[i].suber.id in subers && subers[invoked[i].suber.id] == invoked[i])
    && (forall i, j :: 0 <= i < j < |invoked| ==> invoked[i].suber.id != invoked[j].suber.id)
    && (forall id :: id in subers ==> subers[id] in invoked)
  }

  /**
   * `invoked` calls the elements of `subers` whose subscriber `checkSent`
   * rejects, each exactly once, and nothing else.
   */
  ghost predicate InvokesRejected(invoked: seq<TopicElement>, subers: TopicField, checkSent: StringSubscriber -> bool) {
    && (forall i :: 0 <= i < |invoked| ==>
          invoked[i].suber.id in subers && subers[invoked[i].suber.id] == invoked[i] && !checkSent(invoked[i].suber))
    && (forall i, j :: 0 <= i < j < |invoked| ==> invoked[i].suber.id != invoked[j].suber.id)
    && (forall id :: id in subers && !checkSent(subers[id].suber) ==> subers[id] in invoked)
  }
}
