/** The message processor and its per-gateway records as mutable objects: each
    record owns a fixed 7-slot array updated in place, the processor owns the
    list of records and the log of database inserts. Each method is proved to
    do what the functions of module Windowing say. */
module DeltaEngine {
  import opened Optional
  import opened Topics
  import opened Windowing

  /** The state kept for one gateway. */
  class GatewayRecord {
    const name: string
    /** The last cumulative kWh values, oldest first, in the first `fill` slots. */
    const values: array<real>
    /** Set to 0 by the constructor and never read afterwards. */
    var baseValue: real
    var fill: int
    var readyCount: int
    var lastPayload: string
    var total: int

    ghost predicate Valid()
      reads this
    {
      values.Length == CAPACITY && 0 <= fill <= CAPACITY
    }

    /** The record as a value. */
    ghost function View(): Window
      reads this, values
      requires Valid()
    {
      Window(name, values[..fill], readyCount, total, lastPayload)
    }

    /** A record for a gateway seen for the first time: zeroed buffer, zero
        counters, empty last payload. */
    constructor (gatewayName: string)
      ensures Valid() && fresh(values)
      ensures View() == Fresh(gatewayName)
      ensures forall i :: 0 <= i < CAPACITY ==> values[i] == 0.0
      ensures baseValue == 0.0
    {
      name := gatewayName;
      fill, readyCount, lastPayload, total, baseValue := 0, 0, "", 0, 0.0;
      var buffer := new real[CAPACITY];
      for i := 0 to CAPACITY
        invariant forall j :: 0 <= j < i ==> buffer[j] == 0.0
      {
        buffer[i] := 0.0;
      }
      values := buffer;
    }

    /** Takes one value from a message whose payload differs from the last
        one: inserts it into the buffer, counts the message, emits a delta
        when the buffer is full, and remembers the payload. */
    method Accept(x: real, payload: string) returns (delta: Option<real>)
      requires Valid()
      modifies this, values
      ensures Valid()
      ensures View() == Admit(old(View()), x).0.(lastPayload := payload)
      ensures delta == Admit(old(View()), x).1
      ensures baseValue == old(baseValue)
    {
      if fill < CAPACITY {
        values[fill] := x;
        fill := fill + 1;
      } else {
        for i := 0 to CAPACITY - 1
          modifies values
          invariant forall j :: 0 <= j < i ==> values[j] == old(values[j + 1])
          invariant forall j :: i <= j < CAPACITY ==> values[j] == old(values[j])
        {
          values[i] := values[i + 1];
        }
        values[CAPACITY - 1] := x;
      }
      total := total + 1;
      if fill == CAPACITY {
        var diff := values[CAPACITY - 1] - values[0];
        readyCount := readyCount + 1;
        if readyCount >= 1 {
          delta := Some(diff);
          values[0] := values[CAPACITY - 1];
          fill := 1;
          readyCount := 0;
        } else {
          delta := None;
        }
      } else {
        delta := None;
      }
      lastPayload := payload;
    }
  }

  /** Receives decoded messages, keeps one record per gateway and writes
      deltas to the database (here: appends them to `inserts`). */
  class MessageProcessor {
    var records: seq<GatewayRecord>
    /** Every row written to the measurement table, in order. */
    var inserts: seq<Insert>
    ghost var Windows: seq<Window>
    ghost var Repr: set<object>

    ghost predicate Valid()
      reads this, Repr
    {
      && this in Repr
      && |Windows| == |records|
      && (forall i :: 0 <= i < |records| ==>
            && records[i] in Repr && records[i].values in Repr
            && records[i].Valid() && records[i].View() == Windows[i])
      && (forall i, j :: 0 <= i < j < |records| ==>
            records[i] != records[j] && records[i].values != records[j].values)
      && Settled(Windows)
    }

    constructor ()
      ensures Valid() && fresh(Repr)
      ensures Windows == [] && inserts == []
    {
      records, inserts := [], [];
      Windows := [];
      Repr := {this};
    }

    /** The first record named `name`, or |records| when there is none. */
    method FindRecord(name: string) returns (k: nat)
      requires Valid()
      ensures k == FirstIndex(Windows, name)
    {
      k := 0;
      while k < |records| && records[k].name != name
        invariant k <= |records|
        invariant forall j :: 0 <= j < k ==> Windows[j].name != name
      {
        k := k + 1;
      }
    }

    /** The index of the record named `name`, appending a fresh record at
        the end when there is none. */
    method RecordFor(name: string) returns (k: nat)
      requires Valid()
      modifies this
      ensures Valid() && fresh(Repr - old(Repr))
      ensures k == FirstIndex(old(Windows), name) && k < |records|
      ensures Windows == if k < |old(Windows)| then old(Windows) else old(Windows) + [Fresh(name)]
      ensures inserts == old(inserts)
    {
      k := FindRecord(name);
      if k == |records| {
        var r := new GatewayRecord(name);
        records := records + [r];
        Windows := Windows + [Fresh(name)];
        Repr := Repr + {r, r.values};
      }
    }

    /** Feeds a non-duplicate message to record `k` and writes the delta
        it emits, if any, as an insert for (`name`, `id`). */
    method TakeValue(k: nat, name: string, id: int, payload: string, sample: Sample)
      requires Valid() && k < |records|
      modifies Repr
      ensures Valid() && Repr == old(Repr)
      ensures var (w, d) := Admit(old(Windows)[k], sample.Kwh());
        && Windows == old(Windows)[k := w.(lastPayload := payload)]
        && inserts == old(inserts) + ToSeq(Row(name, id, sample, d))
    {
      var rec := records[k];
      AdmitSettled(Windows[k], sample.Kwh());
      var delta := rec.Accept(sample.Kwh(), payload);
      Windows := Windows[k := rec.View()];
      forall j | 0 <= j < |records| && j != k
        ensures records[j].Valid() && records[j].View() == Windows[j]
      {
        assert records[j] != rec && records[j].values != rec.values;
      }
      if delta.Some? {
        inserts := inserts + [Insert(name, sample.utcTimestamp, delta.value, id)];
      }
    }

    /** Handles one decoded message arriving on `topic`; `idOf` is the
        database's device id lookup as it answers at this moment (-1 for "no
        such device"). */
    method InsertMessage(topic: string, payload: string, sample: Sample, idOf: string -> int)
      requires Valid()
      modifies Repr
      ensures Valid() && fresh(Repr - old(Repr))
      ensures var name := GatewayName(topic);
        var (ws, out) := Ingest(old(Windows), name, idOf(name), payload, sample);
        Windows == ws && inserts == old(inserts) + ToSeq(out)
    {
      var name := GatewayName(topic);
      var id := idOf(name);
      if id == -1 {
        return;
      }
      var k := RecordFor(name);
      if payload == records[k].lastPayload {
        return;
      }
      TakeValue(k, name, id, payload, sample);
    }
  }
}
