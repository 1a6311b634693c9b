/** `RavenDBSink.EmitBatchAsync`: choose the session's database, stage one
    document per event in order with its expiry metadata, save once. */
module Emit {
  import opened Wrappers
  import opened TimeSpans
  import opened LogEvents
  import opened RavenClient
  import opened Sink

  /** `Char.IsWhiteSpace`: the Unicode space, line and paragraph separators,
      the controls U+0009 to U+000D, and U+0085. */
  predicate IsWhiteSpace(c: char) {
    || '\U{0009}' <= c <= '\U{000D}'
    || c == ' ' || c == '\U{0085}' || c == '\U{00A0}' || c == '\U{1680}'
    || '\U{2000}' <= c <= '\U{200A}'
    || c == '\U{2028}' || c == '\U{2029}' || c == '\U{202F}' || c == '\U{205F}'
    || c == '\U{3000}'
  }

  /** True when every character of `s` is white space (vacuously for ""). */
  function AllWhiteSpace(s: string): (b: bool)
    ensures b <==> forall i :: 0 <= i < |s| ==> IsWhiteSpace(s[i])
  {
    if |s| == 0 then true else IsWhiteSpace(s[0]) && AllWhiteSpace(s[1..])
  }

  /** `string.IsNullOrWhiteSpace`. */
  predicate IsNullOrWhiteSpace(s: Option<string>) {
    s.None? || AllWhiteSpace(s.value)
  }

  /** The database argument of `OpenAsyncSession`: none (the store's default)
      for a null or blank `defaultDatabase`, the name itself otherwise. */
  function SessionDatabase(sink: RavenDBSink): (db: Option<string>)
    ensures db.None? <==> IsNullOrWhiteSpace(sink.defaultDatabase)
    ensures db.Some? ==> db == sink.defaultDatabase && exists i :: 0 <= i < |db.value| && !IsWhiteSpace(db.value[i])
  {
    if IsNullOrWhiteSpace(sink.defaultDatabase) then None else sink.defaultDatabase
  }

  /** The document and metadata one event leaves in the session, when the
      clock reads `now` at the moment its expiry is written. */
  function Prepare(sink: RavenDBSink, render: Renderer, e: LogEvent, now: int): Staged
    requires sink.Valid()
  {
    Staged(Doc(e, render(e, sink.formatProvider)), ExpiresMetadata(ChosenDuration(sink, e), now))
  }

  /** What a whole batch leaves staged; `clock(i)` is the `DateTime.UtcNow`
      reading taken while the i-th event is prepared. */
  function PrepareBatch(sink: RavenDBSink, render: Renderer, events: seq<LogEvent>, clock: nat -> int): seq<Staged>
    requires sink.Valid()
  {
    seq(|events|, i requires 0 <= i < |events| => Prepare(sink, render, events[i], clock(i)))
  }

  /** The body of `EmitBatchAsync`, returning the disposed session. */
  method EmitBatch(sink: RavenDBSink, render: Renderer, events: seq<LogEvent>, clock: nat -> int)
    returns (session: Session)
    requires sink.Valid()
    ensures session.database == (if IsNullOrWhiteSpace(sink.defaultDatabase) then sink.documentStore.database
                                 else sink.defaultDatabase.value)
    ensures session.pending == []
    ensures session.committed == [PrepareBatch(sink, render, events, clock)]
    // one committed document per event, in input order
    ensures |session.committed[0]| == |events|
    ensures forall i :: 0 <= i < |events| ==>
              session.committed[0][i].doc == Doc(events[i], render(events[i], sink.formatProvider))
    // expiry metadata exactly when the chosen duration is not the sentinel, then clock + duration
    ensures forall i :: 0 <= i < |events| ==>
              (session.committed[0][i].expires.None? <==> ChosenDuration(sink, events[i]) == Infinite)
    ensures forall i :: 0 <= i < |events| && session.committed[0][i].expires.Some? ==>
              session.committed[0][i].expires.value == clock(i) + ChosenDuration(sink, events[i])
  {
    session := Open(sink.documentStore, SessionDatabase(sink));
    var i := 0;
    while i < |events|
      invariant 0 <= i <= |events|
      invariant session.database == Open(sink.documentStore, SessionDatabase(sink)).database
      invariant session.committed == []
      invariant session.pending == PrepareBatch(sink, render, events[..i], clock)
    {
      var logEvent := events[i];
      var doc := Doc(logEvent, render(logEvent, sink.formatProvider));
      session := Store(session, doc);
      var expiration := ChosenDuration(sink, logEvent);
      if expiration != Infinite {
        session := SetExpires(session, |session.pending| - 1, clock(i) + expiration);
      }
      assert session.pending[i] == Prepare(sink, render, events[i], clock(i));
      assert events[..i + 1][..i] == events[..i];
      i := i + 1;
    }
    assert events[..|events|] == events;
    session := SaveChanges(session);
    forall i | 0 <= i < |events|
      ensures session.committed[0][i] == Prepare(sink, render, events[i], clock(i))
    {
    }
  }

  /** Splitting a batch in two changes nothing but which clock reading each
      event sees: the documents of `a + b` are those of `a` followed by those
      of `b`, the latter with the clock shifted by `|a|`. */
  lemma PrepareBatchAppend(sink: RavenDBSink, render: Renderer,
                           a: seq<LogEvent>, b: seq<LogEvent>, clock: nat -> int)
    requires sink.Valid()
    ensures PrepareBatch(sink, render, a + b, clock)
         == PrepareBatch(sink, render, a, clock) + PrepareBatch(sink, render, b, (i: nat) => clock(i + |a|))
  {
  }

  /** Every event gets exactly one document, holding that event: no event is
      dropped, duplicated or reordered. */
  lemma PrepareBatchKeepsEvents(sink: RavenDBSink, render: Renderer, events: seq<LogEvent>, clock: nat -> int)
    requires sink.Valid()
    ensures |PrepareBatch(sink, render, events, clock)| == |events|
    ensures forall i :: 0 <= i < |events| ==> PrepareBatch(sink, render, events, clock)[i].doc.source == events[i]
  {
    forall i | 0 <= i < |events|
      ensures PrepareBatch(sink, render, events, clock)[i] == Prepare(sink, render, events[i], clock(i))
    {
    }
  }

  /** The expiry is measured from the clock at emit time: when every reading is
      at least `t0`, each written expiry is at least `t0` plus its duration. */
  lemma ExpiryNotBeforeEmitTime(sink: RavenDBSink, render: Renderer, events: seq<LogEvent>, clock: nat -> int, t0: int)
    requires sink.Valid()
    requires forall i: nat :: t0 <= clock(i)
    ensures forall i :: 0 <= i < |events| && PrepareBatch(sink, render, events, clock)[i].expires.Some? ==>
              PrepareBatch(sink, render, events, clock)[i].expires.value >= t0 + ChosenDuration(sink, events[i])
  {
  }
}
