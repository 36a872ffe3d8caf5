# Energy-consumption MQTT client: delta engine, topics and subscriptions

This project models the core of `mqtt_client.cpp`, a client that subscribes to the
energy-consumption topics of a set of gateways. For each gateway it turns the cumulative kWh
readings it receives into consumption deltas, written as rows of a measurement table.

- **Delta engine.** One record per gateway holds a 7-slot buffer of cumulative values, a
  fill count, an emission counter, a message counter and the last payload taken.
  - A message for an unknown device (id lookup gives -1) is dropped.
  - A gateway seen for the first time gets a fresh record, appended at the end.
  - A payload equal to the last one taken is ignored.
  - Any other message stores its value. When the buffer is full, one row
    `(gateway, timestamp, newest - oldest, device id)` is written and the buffer collapses to
    its newest value.
  - `Windowing` states this as pure functions on values (`Admit`, `Receive`, `Ingest`) and
    proves the cadence: the 7th taken value emits, then every 6th one after it.
  - `DeltaEngine` has the objects the source mutates: `GatewayRecord`, with its 7-slot
    `array`, and `MessageProcessor`, with its list of records and its log of inserts. Their
    methods are proved to follow `Windowing`.
  - `Streams` folds whole message streams for one gateway and relates them to a reference
    definition of the inserts.
- **Topics.** `Topics` covers:
  - how a gateway's topic is built;
  - how the gateway name is read back, with `std::string::find`/`substr` semantics, including
    the `npos + 1` wrap-around;
  - the relevance filter.
- **Subscriptions.** `Subscriptions` states which topics are subscribed on connect, on refresh
  and on reconciliation. The reconciliation matches registry pairs against the previous list
  on both name and protocol.
- **Client.** `Client.MqttClient` holds:
  - the previous registry list (a class-wide static in the source, a field here);
  - the list of `subscribe` requests;
  - the time of the last message.

  Its methods are proved against the `Subscriptions` functions.
- **Watchdog.** `Watchdog` states the main loop's silence test on clock readings in seconds.

Inputs the source obtains from outside are parameters:
- The device id lookup is a function `idOf`, passed on every message. The source queries the
  database again for each message (`mqtt_client.cpp:77-92`, called at `:210`), so its answer
  may change between messages, for example when a gateway is added to the registry.
- The registry snapshot is a `seq<RegistryEntry>`.
- The decoded sample is a `Sample` with a timestamp and the two loads in kWh.
- The clock reading is an `int` of seconds.

Notes on how the code behaves:
- A relevant message updates the time of the last message after the engine has run. This
  happens whatever the engine did, including for duplicates and unknown devices
  (`mqtt_client.cpp:411-416`).
- A malformed payload is not guarded: `json::parse` at `mqtt_client.cpp:203` throws and nothing
  catches it. The model takes the sample already decoded (see Left out).
- The previous registry list starts empty. The first reconciliation after start-up therefore
  subscribes again to every eligible gateway (`Subscriptions.FirstReconciliationSubscribesAll`).
- The emission counter is incremented from 0 and then tested for `>= 1`, so the test always
  passes. Every full buffer emits, and the counter is 0 between messages.
- Because every emission leaves one value held, the count of held values stays within 0..6
  between messages. The shift-left branch of the insert (`mqtt_client.cpp:236-243`) is
  therefore never taken (`Windowing.AdmitSettled`).
  - The method `DeltaEngine.GatewayRecord.Accept` still models that branch and proves it
    correct for a full buffer.
- A refresh does not update the time of the last message (`mqtt_client.cpp:516-520`). While
  the feed stays silent, every pass of the main loop refreshes again, once a minute
  (`Watchdog.SilenceKeepsRefreshing`, and `Client.MqttClient.Tick` keeps that time).

## Model

| member | source | states |
|---|---|---|
| Topics.TopicFor | mqtt_client.cpp:365 | the topic for a gateway (also built at `:389, 431`); no ensures of its own, its meaning is stated by Topics.NameRoundTrip, Topics.TopicIsRelevant and Topics.TopicForInjective |
| Topics.FindFrom | mqtt_client.cpp:276-277 | `find` of a character from a position: the first position at or after it holding the character, or none (also when the start lies past the end) |
| Topics.GatewayName | mqtt_client.cpp:274-279 | the extracted name holds no '/', is no longer than the topic, and occurs in the topic |
| Topics.FindSubstring | mqtt_client.cpp:471 | `find` of a substring: the first occurrence at or after the start, or none when it occurs nowhere after it |
| Topics.IsRelevant | mqtt_client.cpp:469-472 | a topic is relevant exactly when "energy/consumption/" occurs somewhere in it |
| Topics.NameRoundTrip | mqtt_client.cpp:274-279 | for a name without '/', extracting the name from the topic built for it (`:365`) gives the name back |
| Topics.NameWithSlashTruncated | mqtt_client.cpp:274-279 | for a name holding '/', extraction returns the part before its first '/' |
| Topics.TopicIsRelevant | mqtt_client.cpp:469-472 | every topic built for a gateway (`:365, 389, 431`) passes the relevance filter |
| Topics.TopicForInjective | mqtt_client.cpp:365 | different gateway names give different topics |
| Windowing.Admit | mqtt_client.cpp:232-262 | taking one value into a record; no ensures of its own, its meaning is stated by Windowing.AdmitSettled, Windowing.RunFromFresh and Windowing.HeldStep |
| Windowing.Receive | mqtt_client.cpp:225-270 | one message reaching its record: the duplicate test, then Admit and the stored payload; no ensures of its own, its meaning is stated by Streams.ReceiveStep and Windowing.KnownDeviceMessage |
| Windowing.Ingest | mqtt_client.cpp:201-271 | one decoded message on the record list; no ensures of its own, its meaning is stated by Windowing.UnknownDeviceIgnored, Windowing.KnownDeviceMessage, Windowing.NewGatewayAppended and Windowing.IngestPreservesSettled |
| Windowing.FirstIndex | mqtt_client.cpp:214-217 | the lookup by name returns the first record with that name, or the end when none has it |
| Windowing.HeldStep | mqtt_client.cpp:232-262 | the count of held values after n taken values is below 7; the next value fills the buffer exactly when it is an emitting one, after which one value is held |
| Windowing.AdmitSettled | mqtt_client.cpp:232-262 | on a reachable record the value goes to the next free slot (no shift); the counter goes up by one; an insert with delta new - oldest happens exactly on the emitting values and then only the new value is held |
| Windowing.IngestPreservesSettled | mqtt_client.cpp:201-271 | every message keeps the record list reachable: at most one record per name, 0..6 values held, emission counter 0 |
| Windowing.UnknownDeviceIgnored | mqtt_client.cpp:209-212 | a device whose lookup gives -1 changes no record, creates none and inserts nothing |
| Windowing.KnownDeviceMessage | mqtt_client.cpp:209-270 | the record is found or appended, others are unchanged; a duplicate payload changes nothing and inserts nothing; any other payload counts once, is remembered, and inserts (gateway, timestamp, v[6]-v[0], id) exactly on the emitting values, leaving only the new value held |
| Windowing.NewGatewayAppended | mqtt_client.cpp:214-223 | an unseen gateway gets exactly one record appended at the end, names stay unique, and for the empty payload the new record is the fresh one (created before the duplicate test) |
| Windowing.RunFromFresh | mqtt_client.cpp:232-262 | after values xs from a fresh record: all counted, the last HeldAfter(|xs|) held in order, and the deltas are exactly the reference ExpectedDeltas(xs) |
| Windowing.NoDeltaBeforeFull | mqtt_client.cpp:248 | fewer than 7 values never emit |
| Windowing.SevenReadingsOneDelta | mqtt_client.cpp:248-262 | readings 0..6 from a fresh record give exactly one delta, 6 |
| Windowing.EighthReadingNoDelta | mqtt_client.cpp:248-262 | an eighth reading after those seven emits nothing more |
| Streams.ReceiveOnLast | mqtt_client.cpp:214-230 | a message for a known device whose record is the last one touches only that record |
| Streams.IngestAllOnOneRecord | mqtt_client.cpp:201-271 | a stream for a known device with no record appends one record, leaves the others alone, and the record evolves from fresh |
| Streams.ReceiveStep | mqtt_client.cpp:225-270 | one message keeps a record tracking the taken messages (count, last payload, held values) and writes an insert exactly as the reference definition says |
| Streams.ReceiveAllFromFresh | mqtt_client.cpp:225-270 | from a fresh record, a stream leaves it tracking exactly the non-duplicate messages, and the inserts written are the reference inserts of those messages |
| Streams.GatewayStream | mqtt_client.cpp:201-271 | a stream for a new gateway appends one record and changes no other; the record tracks the non-duplicate messages; the inserts are exactly the reference inserts (the 7th taken message, then every 6th, each with the value taken 6 before it subtracted) |
| DeltaEngine.GatewayRecord.constructor | mqtt_client.cpp:134-141 | a new record has a zeroed 7-slot buffer, zero counters and an empty last payload |
| DeltaEngine.GatewayRecord.Accept | mqtt_client.cpp:232-270 | the in-place insert (index-increment or shift loop), counter, emission and collapse on the array equal `Admit`, and the payload is remembered |
| DeltaEngine.MessageProcessor.constructor | mqtt_client.cpp:169-170 | a new processor has no records and no inserts |
| DeltaEngine.MessageProcessor.FindRecord | mqtt_client.cpp:214-217 | the linear search returns `FirstIndex` of the records |
| DeltaEngine.MessageProcessor.RecordFor | mqtt_client.cpp:214-223 | the record is found, or a fresh one is appended at the end |
| DeltaEngine.MessageProcessor.TakeValue | mqtt_client.cpp:232-270 | a non-duplicate message changes only its record, as `Admit` says, and appends the emitted row, if any, to the inserts |
| DeltaEngine.MessageProcessor.InsertMessage | mqtt_client.cpp:201-271 | the records and the insert log after one message are exactly those of `Ingest`, for the name extracted from the topic and its looked-up id |
| Subscriptions.EligibleTopics | mqtt_client.cpp:382-397 | the topics subscribed on connect (and on refresh, `:424-439`); no ensures of its own, its meaning is stated by Subscriptions.EligibleTopicsExactly |
| Subscriptions.NewTopics | mqtt_client.cpp:349-370 | the topics subscribed by a reconciliation; no ensures of its own, its meaning is stated by Subscriptions.NewTopicsExactly, Subscriptions.FirstReconciliationSubscribesAll and Subscriptions.NothingNewWhenCovered |
| Subscriptions.EligibleTopicsExactly | mqtt_client.cpp:381-397 | a topic is subscribed on connect or refresh exactly when it is the topic of a protocol-1 gateway of the registry |
| Subscriptions.NewTopicsExactly | mqtt_client.cpp:345-372 | a reconciliation subscribes exactly to the topics of the protocol-1 pairs of the new list that match no previous pair on both name and protocol |
| Subscriptions.FirstReconciliationSubscribesAll | mqtt_client.cpp:325 | with the previous list empty, a reconciliation subscribes to every eligible gateway |
| Subscriptions.NothingNewWhenCovered | mqtt_client.cpp:349-369 | a reconciliation against a list holding every current pair subscribes to nothing |
| Subscriptions.ReconciliationExample | mqtt_client.cpp:345-372 | previous {(A,1)} and registry (A,1),(B,1),(C,2) subscribe to B only |
| Watchdog.WholeMinutes | mqtt_client.cpp:514 | the whole minutes of a duration, truncated toward zero |
| Watchdog.NeedsRefresh | mqtt_client.cpp:512-516 | the main loop's silence test; no ensures of its own, its meaning is stated by Watchdog.NeedsRefreshExactly and Watchdog.SilenceKeepsRefreshing |
| Watchdog.NeedsRefreshExactly | mqtt_client.cpp:512-521 | the refresh happens exactly when at least 660 seconds have passed since the last message |
| Watchdog.SilenceKeepsRefreshing | mqtt_client.cpp:508-521 | the refresh leaves the last-message time alone, so once the silence test holds it holds at every later clock reading until a message arrives |
| Client.MqttClient.constructor | mqtt_client.cpp:328-335 | a new client has an empty previous list, no subscriptions, an empty processor, and the last-message time set to the creation time |
| Client.MqttClient.SubscribeEligible | mqtt_client.cpp:382-397 | the loop subscribes, in order, to the topics `EligibleTopics` names |
| Client.MqttClient.OnConnect | mqtt_client.cpp:376-403 | on success every eligible gateway is subscribed, in registry order; on failure nothing is |
| Client.MqttClient.RefreshSubscriptions | mqtt_client.cpp:420-441 | every eligible gateway is subscribed again, in registry order |
| Client.MqttClient.CheckGatewayChanges | mqtt_client.cpp:345-373 | the nested loops subscribe exactly to `NewTopics` of the previous and current lists, in order, and the previous list becomes the current one |
| Client.MqttClient.OnMessage | mqtt_client.cpp:406-417 | a relevant topic is processed as `Ingest` says, with the id lookup as it answers for this message, and sets the last-message time; any other changes nothing |
| Client.MqttClient.Tick | mqtt_client.cpp:508-524 | one loop pass: the refresh subscriptions when the silence test holds, then the reconciliation's, and the previous list becomes the current one; the time of the last message is left unchanged |

## Left out

- The MySQL layer (`mqtt_client.cpp:22-120`) is foreign I/O. The device id lookup is a function passed with each message, the registry query is a snapshot parameter, and inserts are appended to a log.
- JSON decoding and display (`mqtt_client.cpp:180-207`) are library calls and console output. The engine takes the decoded timestamp and loads as a `Sample`.
- A malformed payload makes `json::parse` throw, and the exception is not caught. The model cannot express that crash; for the same reason an empty payload never reaches the duplicate test in the source.
- The `/1000` scaling and `double` arithmetic are floating point. Values are `real`, without rounding.
- `DeltaEngine.GatewayRecord.Accept`: does not model the overflow of the C++ `int` counters after 2^31 messages, because integers here are unbounded.
- The mosquitto transport (`mqtt_client.cpp:444-466`) is I/O. Subscriptions are an appended list of topics, and the broker's handling of repeated subscriptions is not modelled.
- Threads: the `refreshing` flag is modelled, but every method runs to completion, so the flag is false between calls. Messages arriving during a refresh, on the transport's own thread, are not modelled.
- `Client.MqttClient.Tick`: the one-minute sleep, the signal handler and the loop itself (`mqtt_client.cpp:481-510`) are process control. One pass of the loop is modelled, with the clock reading as a parameter.
- Console output and the hard-coded host names and credentials (`mqtt_client.cpp:492-501`) are left out.
- The never-read base-load field of a record is kept and set to 0 by the constructor. No contract mentions it beyond that.
