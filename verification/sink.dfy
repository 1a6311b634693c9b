/** `RavenDBSink`: the constructor's validation and expiration normalisation,
    and the per-event choice of an expiration duration and its metadata. */
module Sink {
  import opened Wrappers
  import opened TimeSpans
  import opened LogEvents
  import opened RavenClient

  /** `logExpirationCallback`: chooses a duration for each event. */
  type ExpirationCallback = LogEvent -> int

  /** The exceptions the constructor throws. */
  datatype CtorError = ArgumentNull(paramName: string)

  /** A constructed sink. `expiration` and `errorExpiration` hold the effective
      (normalised) durations, not the constructor's parameters. */
  datatype RavenDBSink = RavenDBSink(
    documentStore: DocumentStore,
    batchPostingLimit: int,
    period: int,
    formatProvider: Option<string>,
    defaultDatabase: Option<string>,
    expiration: Option<int>,
    errorExpiration: Option<int>,
    logExpirationCallback: Option<ExpirationCallback>,
    disposeDocumentStore: bool)
  {
    /** What the constructor guarantees of the effective durations: both are set
        or neither is. */
    predicate Valid() {
      expiration.Some? <==> errorExpiration.Some?
    }
  }

  /** The constructor. A missing document store is rejected; otherwise each
      duration falls back to the other, both `??` reading the parameters. */
  function NewSink(
    documentStore: Option<DocumentStore>,
    batchPostingLimit: int,
    period: int,
    formatProvider: Option<string>,
    defaultDatabase: Option<string>,
    expiration: Option<int>,
    errorExpiration: Option<int>,
    logExpirationCallback: Option<ExpirationCallback>): (r: Result<RavenDBSink, CtorError>)
    ensures documentStore.None? <==> r.Failure?
    ensures r.Failure? ==> r.error == ArgumentNull("documentStore")
    ensures r.Success? ==> r.value.Valid()
    ensures r.Success? ==> r.value.documentStore == documentStore.value
    ensures r.Success? ==> r.value.batchPostingLimit == batchPostingLimit && r.value.period == period
    ensures r.Success? ==> r.value.defaultDatabase == defaultDatabase
    ensures r.Success? ==> r.value.formatProvider == formatProvider
    ensures r.Success? ==> r.value.logExpirationCallback == logExpirationCallback
    ensures r.Success? ==> !r.value.disposeDocumentStore
    // each effective duration is its own parameter when given, else the other one
    ensures r.Success? && errorExpiration.Some? ==> r.value.errorExpiration == errorExpiration
    ensures r.Success? && errorExpiration.None? ==> r.value.errorExpiration == expiration
    ensures r.Success? && expiration.Some? ==> r.value.expiration == expiration
    ensures r.Success? && expiration.None? ==> r.value.expiration == errorExpiration
    // neither effective duration is set exactly when neither parameter is
    ensures r.Success? ==> (r.value.expiration.None? <==> expiration.None? && errorExpiration.None?)
    ensures r.Success? ==> (r.value.errorExpiration.None? <==> expiration.None? && errorExpiration.None?)
  {
    if documentStore.None? then
      Failure(ArgumentNull("documentStore"))
    else
      // the first assignment of `_expiration` is overwritten two lines later
      var effectiveErrorExpiration := errorExpiration.OrElse(expiration);
      var effectiveExpiration := expiration.OrElse(errorExpiration);
      Success(RavenDBSink(documentStore.value, batchPostingLimit, period, formatProvider,
                          defaultDatabase, effectiveExpiration, effectiveErrorExpiration,
                          logExpirationCallback, false))
  }

  /** The duration chosen for one event. The callback wins; without it an absent
      duration means `Infinite`, Error and Fatal use the error duration and every
      other level the default one. `Valid` is what makes the error duration's
      `.Value` safe once the default duration is known to be set. */
  function ChosenDuration(sink: RavenDBSink, e: LogEvent): (d: int)
    requires sink.Valid()
    ensures sink.logExpirationCallback.Some? ==> d == sink.logExpirationCallback.value(e)
    ensures sink.logExpirationCallback.None? && IsErrorLevel(e.level) ==> d == sink.errorExpiration.ValueOr(Infinite)
    ensures sink.logExpirationCallback.None? && !IsErrorLevel(e.level) ==> d == sink.expiration.ValueOr(Infinite)
  {
    if sink.logExpirationCallback.Some? then sink.logExpirationCallback.value(e)
    else if sink.expiration.None? then Infinite
    else if IsErrorLevel(e.level) then sink.errorExpiration.value
    else sink.expiration.value
  }

  /** The `Expires` metadata written for a chosen duration `d` when the clock
      reads `now`: none for the sentinel, `now + d` for anything else. */
  function ExpiresMetadata(d: int, now: int): (m: Option<int>)
    ensures m.None? <==> d == Infinite
    ensures m.Some? ==> m.value - now == d
  {
    if d != Infinite then Some(now + d) else None
  }
}
