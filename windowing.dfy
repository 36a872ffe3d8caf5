/** The per-gateway windowed delta engine as values: what one decoded message
    does to the list of gateway records and which database insert it produces.
    The classes in module DeltaEngine are proved to follow these functions. */
module Windowing {
  import opened Optional

  /** Slots in a gateway record's value buffer. */
  const CAPACITY: nat := 7

  /** Values taken in between two emissions once the first window has filled. */
  const STRIDE: nat := CAPACITY - 1

  /** One decoded reading: its UTC timestamp (seconds) and its two load
      registers, already scaled to kWh. */
  datatype Sample = Sample(utcTimestamp: int, load: real, baseLoad: real)
  {
    /** The cumulative value the engine stores: the sum of both loads. */
    function Kwh(): real { load + baseLoad }
  }

  /** One row written to the measurement table. */
  datatype Insert = Insert(gateway: string, utcTimestamp: int, delta: real, deviceId: int)

  /** What a gateway record holds: its name, the values currently in its
      buffer (the first `fill` slots, oldest first), the emission counter, the
      number of messages taken and the last payload taken. */
  datatype Window = Window(name: string, held: seq<real>, readyCount: int, total: int, lastPayload: string)

  /** The record created for a gateway seen for the first time. */
  function Fresh(name: string): Window
  {
    Window(name, [], 0, 0, "")
  }

  /** Takes one value into a record (after the duplicate test): the value is
      appended while fewer than CAPACITY are held, else the oldest is dropped;
      the message counter goes up; when the buffer is exactly full, the
      difference newest - oldest is emitted and the buffer collapses to its
      newest value. */
  function Admit(w: Window, x: real): (Window, Option<real>)
  {
    var held := if |w.held| < CAPACITY then w.held + [x] else w.held[1..] + [x];
    var total := w.total + 1;
    if |held| == CAPACITY then
      var ready := w.readyCount + 1;
      if ready >= 1 then
        (w.(held := [held[CAPACITY - 1]], readyCount := 0, total := total), Some(held[CAPACITY - 1] - held[0]))
      else
        (w.(held := held, readyCount := ready, total := total), None)
    else
      (w.(held := held, total := total), None)
  }

  /** Position of the first record named `name`, or |ws| when there is none. */
  function FirstIndex(ws: seq<Window>, name: string): (k: nat)
    ensures k <= |ws|
    ensures k < |ws| ==> ws[k].name == name
    ensures forall j :: 0 <= j < k ==> ws[j].name != name
  {
    if ws == [] then 0
    else if ws[0].name == name then 0
    else 1 + FirstIndex(ws[1..], name)
  }

  /** One message reaching a record: a payload equal to the last one taken
      changes nothing; any other is admitted and becomes the last one taken. */
  function Receive(w: Window, payload: string, x: real): (Window, Option<real>)
  {
    if payload == w.lastPayload then (w, None)
    else
      var (w', d) := Admit(w, x);
      (w'.(lastPayload := payload), d)
  }

  /** The row written for an emitted delta. */
  function Row(name: string, id: int, s: Sample, d: Option<real>): Option<Insert>
  {
    match d
    case None => None
    case Some(delta) => Some(Insert(name, s.utcTimestamp, delta, id))
  }

  /** One decoded message for gateway `name`, whose device id lookup gave
      `id`: returns the new records and the insert it produces, if any. */
  function Ingest(ws: seq<Window>, name: string, id: int, payload: string, s: Sample): (seq<Window>, Option<Insert>)
  {
    if id == -1 then (ws, None)
    else
      var k := FirstIndex(ws, name);
      var ws1 := if k < |ws| then ws else ws + [Fresh(name)];
      var (w, d) := Receive(ws1[k], payload, s.Kwh());
      (ws1[k := w], Row(name, id, s, d))
  }

  // ---------------------------------------------------------------------------
  // The cadence of emissions

  /** How many values a record holds after taking `n` values from fresh. */
  function HeldAfter(n: nat): nat
  {
    if n == 0 then 0 else (n - 1) % STRIDE + 1
  }

  /** Whether the `n`-th value a record takes (counting from 1) triggers an
      insert: the 7th, then every 6th after it. */
  predicate EmitsAt(n: nat)
  {
    n >= CAPACITY && (n - 1) % STRIDE == 0
  }

  lemma HeldStep(n: nat)
    ensures HeldAfter(n) < CAPACITY
    ensures HeldAfter(n) + 1 == CAPACITY <==> EmitsAt(n + 1)
    ensures HeldAfter(n + 1) == if EmitsAt(n + 1) then 1 else HeldAfter(n) + 1
  {
    if n > 0 {
      var q := (n - 1) % STRIDE;
      assert n - 1 == STRIDE * ((n - 1) / STRIDE) + q;
      if q + 1 < STRIDE {
        assert n % STRIDE == q + 1;
      } else {
        assert n % STRIDE == 0;
      }
    }
  }

  /** A record in a state reachable from Fresh: it holds HeldAfter(total)
      values and its emission counter is 0. */
  predicate SettledWindow(w: Window)
  {
    w.total >= 0 && |w.held| == HeldAfter(w.total) && w.readyCount == 0
  }

  /** Names are unique across records. */
  predicate UniqueNames(ws: seq<Window>)
  {
    forall i, j :: 0 <= i < j < |ws| ==> ws[i].name != ws[j].name
  }

  /** The invariant of the record list between messages. */
  predicate Settled(ws: seq<Window>)
  {
    UniqueNames(ws) && forall i :: 0 <= i < |ws| ==> SettledWindow(ws[i])
  }

  /** One value taken by a settled record: it holds at most 6 values, so the
      value goes into the next free slot (the shift branch is never taken); an
      insert happens exactly on the values EmitsAt picks, with delta = new
      value - oldest held value, after which only the new value is held. */
  lemma AdmitSettled(w: Window, x: real)
    requires SettledWindow(w)
    ensures |w.held| < CAPACITY
    ensures var (w', d) := Admit(w, x);
      && SettledWindow(w')
      && w'.name == w.name && w'.lastPayload == w.lastPayload && w'.total == w.total + 1
      && (d.Some? <==> EmitsAt(w'.total))
      && (d.Some? ==> |w.held| == STRIDE && d.value == x - w.held[0] && w'.held == [x])
      && (d.None? ==> w'.held == w.held + [x])
  {
    HeldStep(w.total);
  }

  /** The record list stays settled under every message. */
  lemma IngestPreservesSettled(ws: seq<Window>, name: string, id: int, payload: string, s: Sample)
    requires Settled(ws)
    ensures Settled(Ingest(ws, name, id, payload, s).0)
  {
    if id != -1 {
      var k := FirstIndex(ws, name);
      var ws1 := if k < |ws| then ws else ws + [Fresh(name)];
      assert Settled(ws1);
      if payload != ws1[k].lastPayload {
        AdmitSettled(ws1[k], s.Kwh());
      }
    }
  }

  // ---------------------------------------------------------------------------
  // What one message does

  /** A device whose id lookup gives -1 is dropped before any record is
      looked up or created: nothing changes and nothing is inserted. */
  lemma UnknownDeviceIgnored(ws: seq<Window>, name: string, payload: string, s: Sample)
    ensures Ingest(ws, name, -1, payload, s) == (ws, None)
  {
  }

  /** One message for a known device, on a settled record list. The gateway's
      record is found by name or appended fresh at the end (before the
      duplicate test), every other record is left as it was, and then:
      a payload equal to the record's last one changes nothing further and
      inserts nothing; any other payload is counted once, stored as the last
      one, and the value is written after the held ones; an insert
      (gateway, timestamp, newest - oldest of the 7 values, id) happens exactly
      when this is the record's EmitsAt-th value, and then the buffer keeps
      only the newest value. */
  lemma KnownDeviceMessage(ws: seq<Window>, name: string, id: int, payload: string, s: Sample)
    requires Settled(ws) && id != -1
    ensures var k := FirstIndex(ws, name);
      var before := if k < |ws| then ws[k] else Fresh(name);
      var (ws', out) := Ingest(ws, name, id, payload, s);
      && |ws'| == (if k < |ws| then |ws| else |ws| + 1)
      && ws'[k].name == name
      && (forall i :: 0 <= i < |ws| && i != k ==> ws'[i] == ws[i])
      && (payload == before.lastPayload ==> ws'[k] == before && out == None)
      && (payload != before.lastPayload ==>
            && ws'[k].total == before.total + 1
            && ws'[k].lastPayload == payload
            && (out.Some? <==> EmitsAt(before.total + 1))
            && (out.Some? ==>
                  && |before.held| + 1 == CAPACITY
                  && out.value == Insert(name, s.utcTimestamp, (before.held + [s.Kwh()])[CAPACITY - 1] - (before.held + [s.Kwh()])[0], id)
                  && ws'[k].held == [s.Kwh()])
            && (out.None? ==> ws'[k].held == before.held + [s.Kwh()]))
  {
    var k := FirstIndex(ws, name);
    var ws1 := if k < |ws| then ws else ws + [Fresh(name)];
    assert Settled(ws1);
    if payload != ws1[k].lastPayload {
      AdmitSettled(ws1[k], s.Kwh());
    }
  }

  /** A gateway that has no record gets exactly one, appended at the end,
      and at most one record per name exists afterwards. */
  lemma NewGatewayAppended(ws: seq<Window>, name: string, id: int, payload: string, s: Sample)
    requires UniqueNames(ws) && id != -1
    requires forall i :: 0 <= i < |ws| ==> ws[i].name != name
    ensures var ws' := Ingest(ws, name, id, payload, s).0;
      && |ws'| == |ws| + 1 && ws'[..|ws|] == ws && ws'[|ws|].name == name
      && UniqueNames(ws')
      && (payload == "" ==> ws'[|ws|] == Fresh(name))
  {
    var k := FirstIndex(ws, name);
    assert k == |ws|;
    var ws1 := ws + [Fresh(name)];
    if payload != "" {
      var (w, d) := Admit(ws1[k], s.Kwh());
      assert w.name == name;
    }
  }

  // ---------------------------------------------------------------------------
  // A stream of values for one record

  /** The values accepted by one record, in order, and the deltas it emits. */
  function Run(w: Window, xs: seq<real>): (Window, seq<real>)
    decreases |xs|
  {
    if xs == [] then (w, [])
    else
      var (w1, ds) := Run(w, xs[..|xs| - 1]);
      var (w2, d) := Admit(w1, xs[|xs| - 1]);
      (w2, ds + ToSeq(d))
  }

  /** Reference definition of the deltas: after the `n`-th value, if EmitsAt(n),
      the `n`-th value minus the value taken 6 values before it. */
  function ExpectedDeltas(xs: seq<real>): seq<real>
    decreases |xs|
  {
    if xs == [] then []
    else
      var n := |xs|;
      ExpectedDeltas(xs[..n - 1]) + (if EmitsAt(n) then [xs[n - 1] - xs[n - CAPACITY]] else [])
  }

  /** From a fresh record, after the values `xs`: the record has counted every
      one of them, it holds the last HeldAfter(|xs|) of them in arrival order,
      and it has emitted exactly ExpectedDeltas(xs). */
  lemma {:induction false} RunFromFresh(name: string, xs: seq<real>)
    ensures var (w, ds) := Run(Fresh(name), xs);
      && w.name == name && w.total == |xs| && w.readyCount == 0
      && w.held == xs[|xs| - HeldAfter(|xs|)..]
      && ds == ExpectedDeltas(xs)
  {
    if xs != [] {
      var n := |xs| - 1;
      var ys, x := xs[..n], xs[n];
      RunFromFresh(name, ys);
      var (w1, ds1) := Run(Fresh(name), ys);
      assert SettledWindow(w1);
      AdmitSettled(w1, x);
      HeldStep(n);
      var (w2, d) := Admit(w1, x);
      if EmitsAt(n + 1) {
        assert w1.held == xs[n + 1 - CAPACITY..n];
        assert w2.held == xs[n..];
      } else {
        assert w2.held == ys[n - HeldAfter(n)..] + [x];
        assert w2.held == xs[n + 1 - HeldAfter(n + 1)..];
      }
    }
  }

  /** Fewer than CAPACITY values never produce a delta. */
  lemma {:induction false} NoDeltaBeforeFull(xs: seq<real>)
    requires |xs| < CAPACITY
    ensures ExpectedDeltas(xs) == []
  {
    if xs != [] {
      NoDeltaBeforeFull(xs[..|xs| - 1]);
    }
  }

  /** Example: readings 0..6 from a fresh record give exactly one insert,
      of 6. */
  lemma SevenReadingsOneDelta(name: string)
    ensures Run(Fresh(name), [0.0, 1.0, 2.0, 3.0, 4.0, 5.0, 6.0]).1 == [6.0]
  {
    var xs := [0.0, 1.0, 2.0, 3.0, 4.0, 5.0, 6.0];
    RunFromFresh(name, xs);
    NoDeltaBeforeFull(xs[..6]);
    assert ExpectedDeltas(xs) == [6.0];
  }

  /** An eighth reading after those seven does not produce a second insert. */
  lemma EighthReadingNoDelta(name: string)
    ensures Run(Fresh(name), [0.0, 1.0, 2.0, 3.0, 4.0, 5.0, 6.0, 7.0]).1 == [6.0]
  {
    var xs := [0.0, 1.0, 2.0, 3.0, 4.0, 5.0, 6.0, 7.0];
    RunFromFresh(name, xs);
    NoDeltaBeforeFull(xs[..6]);
    assert xs[..7][..6] == xs[..6];
    assert ExpectedDeltas(xs[..7]) == [6.0];
    assert !EmitsAt(8);
  }
}
