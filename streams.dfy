/** A whole stream of messages for one gateway through the delta engine:
    which of them are taken (duplicate suppression), what the gateway's record
    holds afterwards and which inserts are written. */
module Streams {
  import opened Optional
  import opened Windowing

  /** One decoded message: its raw payload and its sample. */
  datatype Delivery = Delivery(payload: string, sample: Sample)

  /** The messages `ds`, all for gateway `name` with device id `id`, one
      after the other; returns the records and every insert written. */
  function IngestAll(ws: seq<Window>, name: string, id: int, ds: seq<Delivery>): (seq<Window>, seq<Insert>)
    decreases |ds|
  {
    if ds == [] then (ws, [])
    else
      var n := |ds| - 1;
      var (ws1, ins) := IngestAll(ws, name, id, ds[..n]);
      var (ws2, out) := Ingest(ws1, name, id, ds[n].payload, ds[n].sample);
      (ws2, ins + ToSeq(out))
  }

  /** The payload of the last message, "" before the first. */
  function LastPayload(ds: seq<Delivery>): string
  {
    if ds == [] then "" else ds[|ds| - 1].payload
  }

  /** The messages that are not suppressed: those whose payload differs from
      the message just before (from "" for the first). */
  function Accepted(ds: seq<Delivery>): seq<Delivery>
    decreases |ds|
  {
    if ds == [] then []
    else
      var n := |ds| - 1;
      Accepted(ds[..n]) + (if ds[n].payload != LastPayload(ds[..n]) then [ds[n]] else [])
  }

  /** The cumulative values of messages, in order. */
  function Kwhs(acc: seq<Delivery>): (xs: seq<real>)
    ensures |xs| == |acc| && forall i :: 0 <= i < |acc| ==> xs[i] == acc[i].sample.Kwh()
  {
    seq(|acc|, i requires 0 <= i < |acc| => acc[i].sample.Kwh())
  }

  /** Reference definition of the inserts for the taken messages `acc`: after
      the `n`-th, if EmitsAt(n), one row with its timestamp and its value minus
      the value of the message taken 6 before it. */
  function ExpectedInserts(name: string, id: int, acc: seq<Delivery>): seq<Insert>
    decreases |acc|
  {
    if acc == [] then []
    else
      var n := |acc|;
      ExpectedInserts(name, id, acc[..n - 1]) + InsertFor(name, id, acc)
  }

  /** The insert, if any, that the `n`-th taken message `d` adds to
      ExpectedInserts. */
  function InsertFor(name: string, id: int, acc: seq<Delivery>): seq<Insert>
    requires acc != []
  {
    var n := |acc|;
    if EmitsAt(n)
    then [Insert(name, acc[n - 1].sample.utcTimestamp, acc[n - 1].sample.Kwh() - acc[n - CAPACITY].sample.Kwh(), id)]
    else []
  }

  /** ExpectedInserts of one more taken message. */
  lemma ExpectedInsertsSnoc(name: string, id: int, acc: seq<Delivery>, d: Delivery)
    ensures ExpectedInserts(name, id, acc + [d]) == ExpectedInserts(name, id, acc) + InsertFor(name, id, acc + [d])
  {
    assert (acc + [d])[..|acc|] == acc;
  }

  /** The messages `ds` reaching one record `w` of gateway `name` (device id
      `id`), one after the other: the record afterwards and every insert
      written. */
  function ReceiveAll(w: Window, name: string, id: int, ds: seq<Delivery>): (Window, seq<Insert>)
    decreases |ds|
  {
    if ds == [] then (w, [])
    else
      var n := |ds| - 1;
      var (w1, ins) := ReceiveAll(w, name, id, ds[..n]);
      var (w2, d) := Receive(w1, ds[n].payload, ds[n].sample.Kwh());
      (w2, ins + ToSeq(Row(name, id, ds[n].sample, d)))
  }

  /** Appending a record to a list with no record for `name` leaves the
      lookup pointing at the appended one when it carries that name. */
  lemma {:induction false} FirstIndexAppend(ws: seq<Window>, w: Window, name: string)
    requires FirstIndex(ws, name) == |ws| && w.name == name
    ensures FirstIndex(ws + [w], name) == |ws|
  {
    if ws != [] {
      assert ws[0].name != name;
      assert (ws + [w])[1..] == ws[1..] + [w];
      FirstIndexAppend(ws[1..], w, name);
    }
  }

  /** A message for a known device whose record is the last one, after
      records for other gateways, only touches that record. */
  lemma ReceiveOnLast(ws: seq<Window>, w: Window, name: string, id: int, payload: string, s: Sample)
    requires id != -1 && FirstIndex(ws, name) == |ws| && w.name == name
    ensures var r := Receive(w, payload, s.Kwh());
      Ingest(ws + [w], name, id, payload, s) == (ws + [r.0], Row(name, id, s, r.1))
  {
    FirstIndexAppend(ws, w, name);
    var ws1 := ws + [w];
    var r := Receive(w, payload, s.Kwh());
    assert ws1[|ws| := r.0] == ws + [r.0];
  }

  /** A stream for a known device with no record yet appends one record,
      leaves the others alone, and that record evolves as ReceiveAll from
      Fresh. */
  lemma {:induction false} IngestAllOnOneRecord(ws: seq<Window>, name: string, id: int, ds: seq<Delivery>)
    requires id != -1 && FirstIndex(ws, name) == |ws| && ds != []
    decreases |ds|
    ensures var r := ReceiveAll(Fresh(name), name, id, ds);
      IngestAll(ws, name, id, ds) == (ws + [r.0], r.1)
  {
    var n := |ds| - 1;
    var prev := ReceiveAll(Fresh(name), name, id, ds[..n]);
    if n > 0 {
      IngestAllOnOneRecord(ws, name, id, ds[..n]);
      ReceiveAllFromFresh(name, id, ds[..n]);
      ReceiveOnLast(ws, prev.0, name, id, ds[n].payload, ds[n].sample);
    } else {
      assert ds[..n] == [];
      ReceiveOnLast(ws, Fresh(name), name, id, ds[n].payload, ds[n].sample);
    }
  }

  /** A record that has counted the taken messages `acc`, holds the last
      HeldAfter(|acc|) of their values in arrival order, and remembers the
      payload `last`. */
  predicate Tracks(w: Window, name: string, acc: seq<Delivery>, last: string)
  {
    && SettledWindow(w)
    && w.name == name
    && w.total == |acc|
    && w.lastPayload == last
    && w.held == Kwhs(acc)[|acc| - HeldAfter(|acc|)..]
  }

  /** One more message reaching a tracking record: it goes on tracking the
      taken messages, and writes an insert exactly as InsertFor says. */
  lemma ReceiveStep(w: Window, name: string, id: int, acc1: seq<Delivery>, last: string, d: Delivery)
    requires Tracks(w, name, acc1, last)
    ensures var r := Receive(w, d.payload, d.sample.Kwh());
      && Tracks(r.0, name, acc1 + (if d.payload != last then [d] else []), d.payload)
      && ToSeq(Row(name, id, d.sample, r.1)) == if d.payload != last then InsertFor(name, id, acc1 + [d]) else []
  {
    if d.payload != last {
      var acc := acc1 + [d];
      var m := |acc1|;
      AdmitSettled(w, d.sample.Kwh());
      assert Kwhs(acc) == Kwhs(acc1) + [d.sample.Kwh()];
      HeldStep(m);
      if EmitsAt(m + 1) {
        assert w.held[0] == acc[m + 1 - CAPACITY].sample.Kwh();
      }
    }
  }

  /** From a fresh record, after the messages `ds`: the record tracks the
      accepted messages and the last payload, and the inserts written are
      exactly ExpectedInserts of the accepted messages. */
  lemma {:induction false} ReceiveAllFromFresh(name: string, id: int, ds: seq<Delivery>)
    decreases |ds|
    ensures var r := ReceiveAll(Fresh(name), name, id, ds);
      && Tracks(r.0, name, Accepted(ds), LastPayload(ds))
      && r.1 == ExpectedInserts(name, id, Accepted(ds))
  {
    if ds != [] {
      var n := |ds| - 1;
      var d := ds[n];
      ReceiveAllFromFresh(name, id, ds[..n]);
      var prev := ReceiveAll(Fresh(name), name, id, ds[..n]);
      var acc1 := Accepted(ds[..n]);
      var last := LastPayload(ds[..n]);
      ReceiveStep(prev.0, name, id, acc1, last, d);
      var step := Receive(prev.0, d.payload, d.sample.Kwh());
      assert ReceiveAll(Fresh(name), name, id, ds).1 == prev.1 + ToSeq(Row(name, id, d.sample, step.1));
      if d.payload != last {
        assert Accepted(ds) == acc1 + [d];
        ExpectedInsertsSnoc(name, id, acc1, d);
      } else {
        assert Accepted(ds) == acc1;
      }
    }
  }

  /** A non-empty stream for a known device that has no record yet: one
      record is appended and the others are untouched; the record has counted
      exactly the accepted messages, remembers the last payload, and holds the
      last HeldAfter values of the accepted messages; the inserts written are
      exactly ExpectedInserts of the accepted messages. */
  lemma GatewayStream(ws: seq<Window>, name: string, id: int, ds: seq<Delivery>)
    requires id != -1 && FirstIndex(ws, name) == |ws| && ds != []
    ensures var run := IngestAll(ws, name, id, ds);
      && |run.0| == |ws| + 1 && run.0[..|ws|] == ws
      && Tracks(run.0[|ws|], name, Accepted(ds), LastPayload(ds))
      && run.1 == ExpectedInserts(name, id, Accepted(ds))
  {
    IngestAllOnOneRecord(ws, name, id, ds);
    ReceiveAllFromFresh(name, id, ds);
    var r := ReceiveAll(Fresh(name), name, id, ds);
    assert (ws + [r.0])[..|ws|] == ws;
  }
}
