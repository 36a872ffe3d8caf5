/** The MQTT client: subscriptions on connect, on refresh and on
    reconciliation, the relevance filter in front of the message processor,
    and one pass of the main loop's silence check. The transport's
    `subscribe` calls are recorded, in order, in `requests`. */
module Client {
  import opened Topics
  import opened Windowing
  import opened Subscriptions
  import opened Watchdog
  import DeltaEngine

  class MqttClient {
    const processor: DeltaEngine.MessageProcessor
    /** The registry list seen by the last reconciliation; starts empty. */
    var previous: seq<RegistryEntry>
    /** Every topic passed to `subscribe`, in order. */
    var requests: seq<string>
    /** Clock reading (seconds) of the last processed message. */
    var lastMessageTime: int
    /** Set while a refresh is subscribing; messages are dropped meanwhile. */
    var refreshing: bool
    ghost var Repr: set<object>

    ghost predicate Valid()
      reads this, Repr
    {
      && this in Repr
      && processor in Repr && processor.Repr <= Repr && this !in processor.Repr
      && processor.Valid()
      && !refreshing
    }

    /** A client created at clock reading `now`. */
    constructor (now: int)
      ensures Valid() && fresh(Repr)
      ensures processor.Windows == [] && processor.inserts == []
      ensures previous == [] && requests == [] && lastMessageTime == now
    {
      var p := new DeltaEngine.MessageProcessor();
      processor := p;
      previous, requests := [], [];
      lastMessageTime := now;
      refreshing := false;
      Repr := {this} + p.Repr;
    }

    /** Subscribes to the topic of every protocol-1 gateway of `snapshot`, in
        order, skipping the others. */
    method SubscribeEligible(snapshot: seq<RegistryEntry>)
      modifies this`requests
      ensures requests == old(requests) + EligibleTopics(snapshot)
    {
      for i := 0 to |snapshot|
        invariant requests == old(requests) + EligibleTopics(snapshot[..i])
      {
        var entry := snapshot[i];
        if entry.protocol == ENERGY_PROTOCOL {
          requests := requests + [TopicFor(entry.name)];
        }
        assert snapshot[..i + 1][..i] == snapshot[..i];
      }
      assert snapshot[..|snapshot|] == snapshot;
    }

    /** Connection callback: on success (`rc == 0`) subscribes to every
        eligible gateway of the registry; otherwise subscribes to nothing. */
    method OnConnect(rc: int, snapshot: seq<RegistryEntry>)
      requires Valid()
      modifies this`requests
      ensures Valid()
      ensures requests == old(requests) + (if rc == 0 then EligibleTopics(snapshot) else [])
    {
      if rc == 0 {
        SubscribeEligible(snapshot);
      }
    }

    /** Subscribes again to every eligible gateway of the registry, holding
        back incoming messages meanwhile. */
    method RefreshSubscriptions(snapshot: seq<RegistryEntry>)
      requires Valid()
      modifies this`requests, this`refreshing
      ensures Valid()
      ensures requests == old(requests) + EligibleTopics(snapshot)
    {
      refreshing := true;
      SubscribeEligible(snapshot);
      refreshing := false;
    }

    /** Reconciliation: subscribes to every protocol-1 pair of `current` that
        matches no pair of the previous list on both name and protocol, in
        order, then replaces the previous list by `current`. */
    method CheckGatewayChanges(current: seq<RegistryEntry>)
      requires Valid()
      modifies this`previous, this`requests
      ensures Valid()
      ensures requests == old(requests) + NewTopics(old(previous), current)
      ensures previous == current
    {
      for i := 0 to |current|
        invariant previous == old(previous)
        invariant requests == old(requests) + NewTopics(previous, current[..i])
      {
        var entry := current[i];
        var found := false;
        var j := 0;
        while j < |previous|
          invariant j <= |previous|
          invariant !found
          invariant forall m :: 0 <= m < j ==> previous[m] != entry
        {
          if entry.name == previous[j].name && entry.protocol == previous[j].protocol {
            found := true;
            break;
          }
          j := j + 1;
        }
        assert found <==> entry in previous;
        if !found {
          if entry.protocol == ENERGY_PROTOCOL {
            requests := requests + [TopicFor(entry.name)];
          }
        }
        assert current[..i + 1][..i] == current[..i];
      }
      assert current[..|current|] == current;
      previous := current;
    }

    /** Message callback at clock reading `now`, with `idOf` the database's
        device id lookup as it answers at this moment: a relevant topic goes to
        the processor and marks the time of the last message; any other is
        dropped. */
    method OnMessage(topic: string, payload: string, sample: Sample, now: int, idOf: string -> int)
      requires Valid()
      modifies Repr
      ensures Valid() && fresh(Repr - old(Repr))
      ensures requests == old(requests) && previous == old(previous)
      ensures IsRelevant(topic) ==>
        var name := GatewayName(topic);
        var (ws, out) := Ingest(old(processor.Windows), name, idOf(name), payload, sample);
        && processor.Windows == ws
        && processor.inserts == old(processor.inserts) + Optional.ToSeq(out)
        && lastMessageTime == now
      ensures !IsRelevant(topic) ==>
        && processor.Windows == old(processor.Windows)
        && processor.inserts == old(processor.inserts)
        && lastMessageTime == old(lastMessageTime)
    {
      if IsRelevant(topic) && !refreshing {
        processor.InsertMessage(topic, payload, sample, idOf);
        lastMessageTime := now;
        Repr := Repr + processor.Repr;
      }
    }

    /** One pass of the main loop after its one-minute sleep, at clock reading
        `now`: refreshes every subscription when the silence has lasted 11
        whole minutes (with the registry read `refreshSnapshot`), then
        reconciles against the registry read `current`. */
    method Tick(now: int, refreshSnapshot: seq<RegistryEntry>, current: seq<RegistryEntry>)
      requires Valid()
      modifies this`previous, this`requests, this`refreshing
      ensures Valid()
      ensures requests == old(requests)
        + (if NeedsRefresh(now, lastMessageTime) then EligibleTopics(refreshSnapshot) else [])
        + NewTopics(old(previous), current)
      ensures previous == current
      ensures lastMessageTime == old(lastMessageTime)
    {
      if NeedsRefresh(now, lastMessageTime) {
        RefreshSubscriptions(refreshSnapshot);
      }
      CheckGatewayChanges(current);
    }
  }
}
