# RavenDB log sink: expiration and batch emission

A Dafny model of the decision core of `RavenDBSink`, the Serilog sink that
writes batches of log events as documents to a RavenDB database:

- **construction**: a missing document store is rejected with
  `ArgumentNullException("documentStore")`; the two optional durations
  `expiration` and `errorExpiration` are normalised so that each falls back
  to the other (module `Sink`, `NewSink`);
- **per-event expiration**: a configured callback decides; otherwise an
  unset pair of durations means "never", Error and Fatal events use the error
  duration and every other level the default one (`Sink.ChosenDuration`);
  an `Expires` metadata entry of `now + duration` is written unless the
  duration is `Timeout.InfiniteTimeSpan` (-1 ms)
  (`Sink.ExpiresMetadata`);
- **batch emission**: the session is opened on the store's default database
  when `defaultDatabase` is null or white space and on the named database
  otherwise; each event is staged as one document, in order, with its
  metadata; the changes are saved once (module `Emit`, `EmitBatch`).

Durations and instants are integers counting 100-nanosecond ticks. The UTC
clock is a parameter `clock: nat -> int`: `clock(i)` is the reading taken
while the i-th event of the batch is prepared, since the sink reads
`DateTime.UtcNow` at emit time, not when the event was logged, and at most
once per event, only when an expiry is written (a sentinel event leaves
`clock(i)` unused). Message rendering is a parameter of type `Renderer`. The RavenDB
client is reduced to a `Session` value that records the staged documents and
the snapshots sent by each save (module `RavenClient`).

Module `ExpirationPolicy` restates the rule as the constructor's parameter
documentation gives it, from the raw parameters rather than the normalised
fields, and proves that the sink follows it for every configuration, event
and clock reading (`SinkFollowsPolicy`). It then proves the fallback table
case by case, matching the test suite.

The code assigns `_expiration` twice (lines 69 and 71), but both `??`
expressions read the constructor parameters, not the fields. The outcome
therefore does not depend on the order of the assignments, and the model
computes both effective durations from the parameters. A flush with an empty
batch is not short-circuited by `EmitBatchAsync`: it opens a session and saves
nothing, and the model does the same.

## Model

| member | source | states |
|---|---|---|
| Sink.NewSink | src/Serilog.Sinks.RavenDB/Sinks/RavenDB/RavenDBSink.cs:62-74 | fails with ArgumentNull("documentStore") exactly when no store is given; otherwise keeps the store, batch posting limit, period, format provider, default database and callback as given, sets no store disposal, and makes each effective duration its own parameter when given and the other parameter otherwise; both effective durations are absent exactly when both parameters are, so the sink is `Valid` |
| Sink.ChosenDuration | src/Serilog.Sinks.RavenDB/Sinks/RavenDB/RavenDBSink.cs:91-95 | for a `Valid` sink (so `.Value` never faults): the callback's result when one is configured; otherwise the error duration for Error/Fatal and the default duration for other levels, an absent duration reading as the infinite sentinel |
| Sink.ExpiresMetadata | src/Serilog.Sinks.RavenDB/Sinks/RavenDB/RavenDBSink.cs:97-101 | no metadata exactly when the duration is the sentinel; otherwise an expiry lying exactly that duration after the clock reading |
| RavenClient.Open | src/Serilog.Sinks.RavenDB/Sinks/RavenDB/RavenDBSink.cs:84 | defines the stand-in for the RavenDB client, not verified sink behaviour: a fresh session with nothing staged or sent, on the store's default database or the named one |
| RavenClient.Store | src/Serilog.Sinks.RavenDB/Sinks/RavenDB/RavenDBSink.cs:89 | defines the client stand-in, not verified sink behaviour: stages the document without metadata after those already staged, leaving them unchanged |
| RavenClient.SetExpires | src/Serilog.Sinks.RavenDB/Sinks/RavenDB/RavenDBSink.cs:99-100 | defines the client stand-in, not verified sink behaviour: sets the expiry of one staged document and changes no other document |
| RavenClient.SaveChanges | src/Serilog.Sinks.RavenDB/Sinks/RavenDB/RavenDBSink.cs:103 | defines the client stand-in, not verified sink behaviour: sends everything staged as one more batch and leaves nothing pending |
| Emit.AllWhiteSpace | src/Serilog.Sinks.RavenDB/Sinks/RavenDB/RavenDBSink.cs:84 | true exactly when every character is white space in the sense of `Char.IsWhiteSpace` (so also for the empty string) |
| Emit.SessionDatabase | src/Serilog.Sinks.RavenDB/Sinks/RavenDB/RavenDBSink.cs:84 | no database argument exactly when `defaultDatabase` is null or white space; otherwise `defaultDatabase`, which then contains a non-blank character |
| Emit.EmitBatch | src/Serilog.Sinks.RavenDB/Sinks/RavenDB/RavenDBSink.cs:82-105 | the session is on the store default iff `defaultDatabase` is null or blank, else on `defaultDatabase`; exactly one save, holding one document per event in input order with that event and its rendered message; metadata present iff the chosen duration is not the sentinel, and then equal to that event's clock reading plus the duration |
| Emit.PrepareBatchAppend | src/Serilog.Sinks.RavenDB/Sinks/RavenDB/RavenDBSink.cs:86-102 | the documents of a concatenated batch are those of the first part followed by those of the second, the second seeing the clock shifted by the first part's length |
| Emit.PrepareBatchKeepsEvents | src/Serilog.Sinks.RavenDB/Sinks/RavenDB/RavenDBSink.cs:86-89 | a batch yields exactly one document per event, the i-th holding the i-th event |
| Emit.ExpiryNotBeforeEmitTime | test/Serilog.Sinks.RavenDB.Tests/RavenDBSinkTests.cs:84-90 | when every clock reading is at least t0, every written expiry is at least t0 plus the event's duration |
| ExpirationPolicy.SinkFollowsPolicy | src/Serilog.Sinks.RavenDB/Sinks/RavenDB/RavenDBSink.cs:59-61 | a sink built from any parameters with a store exists, and for every event and clock reading its metadata equals the documented rule applied to the raw parameters: callback first, then own-class duration, then the other class's duration, sentinel or nothing meaning no expiry |
| ExpirationPolicy.PlainSink | test/Serilog.Sinks.RavenDB.Tests/RavenDBSinkTests.cs:77 | the test fixture's sink (batch limit 2, no format provider, no database, no callback) with the given durations: it is built, satisfies the both-or-neither invariant and has no callback |
| ExpirationPolicy.BothDurationsSplitBySeverity | test/Serilog.Sinks.RavenDB.Tests/RavenDBSinkTests.cs:61-158 | with both durations set, Error/Fatal get the error duration and all other levels the default one |
| ExpirationPolicy.OnlyExpirationAppliesToAllLevels | test/Serilog.Sinks.RavenDB.Tests/RavenDBSinkTests.cs:160-190 | with only the default duration set, every level gets it |
| ExpirationPolicy.OnlyErrorExpirationAppliesToAllLevels | test/Serilog.Sinks.RavenDB.Tests/RavenDBSinkTests.cs:192-222 | with only the error duration set, every level gets it |
| ExpirationPolicy.NoDurationsNeverExpire | test/Serilog.Sinks.RavenDB.Tests/RavenDBSinkTests.cs:224-249 | with no durations and no callback, no event gets expiry metadata |
| ExpirationPolicy.InfiniteForOneClass | src/Serilog.Sinks.RavenDB/Sinks/RavenDB/RavenDBSink.cs:91-97 | the sentinel as one class's duration disables expiry for that class only, while the other class expires after its finite duration |
| ExpirationPolicy.CallbackOverridesDurations | src/Serilog.Sinks.RavenDB/Sinks/RavenDB/RavenDBSink.cs:61 | with a callback, the metadata depends only on the callback's result, whatever the durations and level |
| ExpirationPolicy.TestSuiteScenarios | test/Serilog.Sinks.RavenDB.Tests/RavenDBSinkTests.cs:61-311 | the concrete configurations of the tests (one day, fifteen minutes, the sentinel) give the expiries and absences the tests assert |

## Left out

- Batching, the flush timer, size triggers, shutdown draining and the base constructor's validation of `batchPostingLimit` and `period`: they belong to `PeriodicBatchingSink`, which is not part of this model; the two values are only stored.
- Network I/O, asynchrony and failures of the RavenDB client (`OpenAsyncSession`, `StoreAsync`, `GetMetadataFor`, `SaveChangesAsync`): the session is an abstract list of staged documents and sent snapshots, and the `Expires` metadata key is not named.
- `LogEvent.RenderMessage` and the layout of the stored `Data.LogEvent` document: rendering is a parameter and a document is the event paired with its rendered message.
- `RavenPropertyFormatter.Simplify`: its code is not part of this model; event properties are kept as strings.
- `LoggerConfigurationRavenDBExtensions` and the constants `DefaultBatchPostingLimit` and `DefaultPeriod`: a configuration wrapper and the defaults it passes on; nothing in the sink's logic reads them.
- `Dispose`: `_disposeDocumentStore` is always false, which `NewSink` states; disposal itself is not modelled.
- Sink.ExpiresMetadata: does not model `DateTime.Add` throwing when `now + duration` leaves the range of `DateTime`, because instants are unbounded integers.
- Exceptions thrown by the expiration callback or the renderer: both are total functions here.
- Reading the wall clock: the readings are the `clock` parameter.
