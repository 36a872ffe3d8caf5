/** Which topics the client subscribes to, given the registry's list of
    (gateway name, protocol id) pairs: every protocol-1 gateway on connect and
    on refresh, and on reconciliation only the pairs absent from the previous
    list. */
module Subscriptions {
  import opened Topics

  /** One row of the gateway registry. */
  datatype RegistryEntry = RegistryEntry(name: string, protocol: int)

  /** The only protocol whose gateways publish on the energy-consumption topics. */
  const ENERGY_PROTOCOL: int := 1

  /** The topic subscribed for `e` on connect or refresh, if any. */
  function TopicsOf(e: RegistryEntry): seq<string>
  {
    if e.protocol == ENERGY_PROTOCOL then [TopicFor(e.name)] else []
  }

  /** The topics subscribed on connect or refresh, in registry order. */
  function EligibleTopics(snapshot: seq<RegistryEntry>): seq<string>
    decreases |snapshot|
  {
    if snapshot == [] then []
    else
      var n := |snapshot| - 1;
      EligibleTopics(snapshot[..n]) + TopicsOf(snapshot[n])
  }

  /** The topics subscribed by a reconciliation against `previous`, in
      registry order: a pair already present in `previous` (same name and same
      protocol) is skipped. */
  function NewTopics(previous: seq<RegistryEntry>, current: seq<RegistryEntry>): seq<string>
    decreases |current|
  {
    if current == [] then []
    else
      var n := |current| - 1;
      NewTopics(previous, current[..n]) + (if current[n] in previous then [] else TopicsOf(current[n]))
  }

  /** The topics subscribed on connect or refresh are exactly the topics of the
      protocol-1 gateways of the registry. */
  lemma {:induction false} EligibleTopicsExactly(snapshot: seq<RegistryEntry>, t: string)
    ensures t in EligibleTopics(snapshot) <==>
      exists e :: e in snapshot && e.protocol == ENERGY_PROTOCOL && t == TopicFor(e.name)
  {
    if snapshot != [] {
      var n := |snapshot| - 1;
      EligibleTopicsExactly(snapshot[..n], t);
      assert snapshot == snapshot[..n] + [snapshot[n]];
    }
  }

  /** A reconciliation subscribes exactly to the topics of the protocol-1
      pairs of the new list that match no pair of the previous list on both
      name and protocol. */
  lemma {:induction false} NewTopicsExactly(previous: seq<RegistryEntry>, current: seq<RegistryEntry>, t: string)
    ensures t in NewTopics(previous, current) <==>
      exists e :: e in current && e !in previous && e.protocol == ENERGY_PROTOCOL && t == TopicFor(e.name)
  {
    if current != [] {
      var n := |current| - 1;
      NewTopicsExactly(previous, current[..n], t);
      assert current == current[..n] + [current[n]];
    }
  }

  /** The previous list starts empty, so the first reconciliation subscribes
      to every eligible gateway again, as on connect. */
  lemma {:induction false} FirstReconciliationSubscribesAll(current: seq<RegistryEntry>)
    ensures NewTopics([], current) == EligibleTopics(current)
  {
    if current != [] {
      FirstReconciliationSubscribesAll(current[..|current| - 1]);
    }
  }

  /** Reconciling against a list that already holds every pair subscribes to
      nothing; in particular a second reconciliation with an unchanged
      registry subscribes to nothing. */
  lemma {:induction false} NothingNewWhenCovered(previous: seq<RegistryEntry>, current: seq<RegistryEntry>)
    requires forall e :: e in current ==> e in previous
    ensures NewTopics(previous, current) == []
  {
    if current != [] {
      var n := |current| - 1;
      assert current[n] in current;
      NothingNewWhenCovered(previous, current[..n]);
    }
  }

  /** Example: previous {(A,1)}, registry (A,1), (B,1), (C,2): one
      subscription, for B. */
  lemma ReconciliationExample()
    ensures NewTopics([RegistryEntry("A", 1)],
                      [RegistryEntry("A", 1), RegistryEntry("B", 1), RegistryEntry("C", 2)])
            == [TopicFor("B")]
  {
    var previous := [RegistryEntry("A", 1)];
    var current := [RegistryEntry("A", 1), RegistryEntry("B", 1), RegistryEntry("C", 2)];
    assert current[..2][..1] == [RegistryEntry("A", 1)];
    assert current[..2][1] == RegistryEntry("B", 1);
    assert RegistryEntry("B", 1) !in previous;
  }
}
