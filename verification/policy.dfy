/** The expiration rule as the constructor's parameter documentation states
    it, written from the raw parameters and independently of the sink's
    normalised fields, and the proof that the sink follows it. */
module ExpirationPolicy {
  import opened Wrappers
  import opened TimeSpans
  import opened LogEvents
  import opened RavenClient
  import opened Sink

  /** Whether a stored event expires, and when. */
  datatype Decision = NoExpiration | ExpireAt(at: int)

  /** The duration the documentation assigns to an event, if any: the callback
      when given; else, for Error and Fatal, `errorExpiration` or failing that
      `expiration`; for every other level the other way round. */
  function Selected(expiration: Option<int>, errorExpiration: Option<int>,
                    callback: Option<ExpirationCallback>, e: LogEvent): Option<int>
  {
    if callback.Some? then Some(callback.value(e))
    else if IsErrorLevel(e.level) then (if errorExpiration.Some? then errorExpiration else expiration)
    else (if expiration.Some? then expiration else errorExpiration)
  }

  /** No expiry when nothing is selected or the sentinel is; otherwise the
      selected duration from `now`. */
  function Resolve(expiration: Option<int>, errorExpiration: Option<int>,
                   callback: Option<ExpirationCallback>, e: LogEvent, now: int): Decision
  {
    match Selected(expiration, errorExpiration, callback, e)
    case None => NoExpiration
    case Some(d) => if d == Infinite then NoExpiration else ExpireAt(now + d)
  }

  /** The `Expires` metadata entry a decision corresponds to. */
  function AsMetadata(decision: Decision): Option<int> {
    match decision
    case NoExpiration => None
    case ExpireAt(at) => Some(at)
  }

  /** A sink built from these parameters writes, for every event and clock
      reading, exactly the metadata the documented rule prescribes. */
  lemma SinkFollowsPolicy(store: DocumentStore, batchPostingLimit: int, period: int,
                          formatProvider: Option<string>, defaultDatabase: Option<string>,
                          expiration: Option<int>, errorExpiration: Option<int>,
                          callback: Option<ExpirationCallback>, e: LogEvent, now: int)
    ensures NewSink(Some(store), batchPostingLimit, period, formatProvider, defaultDatabase,
                    expiration, errorExpiration, callback).Success?
    ensures var sink := NewSink(Some(store), batchPostingLimit, period, formatProvider, defaultDatabase,
                                expiration, errorExpiration, callback).value;
            ExpiresMetadata(ChosenDuration(sink, e), now)
              == AsMetadata(Resolve(expiration, errorExpiration, callback, e, now))
  {
  }

  /** A sink built with the parameters of the test setups, no callback. */
  function PlainSink(store: DocumentStore, expiration: Option<int>, errorExpiration: Option<int>): (sink: RavenDBSink)
    ensures sink.Valid() && sink.logExpirationCallback.None?
  {
    NewSink(Some(store), 2, 50 * TicksPerMillisecond, None, None, expiration, errorExpiration, None).value
  }

  /** With both durations set, Error and Fatal expire after the error duration
      and every other level after the default one. */
  lemma BothDurationsSplitBySeverity(store: DocumentStore, d: int, ed: int, e: LogEvent)
    ensures ChosenDuration(PlainSink(store, Some(d), Some(ed)), e) == (if IsErrorLevel(e.level) then ed else d)
  {
  }

  /** Setting only the default duration makes it apply to every level. */
  lemma OnlyExpirationAppliesToAllLevels(store: DocumentStore, d: int, e: LogEvent)
    ensures ChosenDuration(PlainSink(store, Some(d), None), e) == d
  {
  }

  /** Setting only the error duration makes it apply to every level. */
  lemma OnlyErrorExpirationAppliesToAllLevels(store: DocumentStore, ed: int, e: LogEvent)
    ensures ChosenDuration(PlainSink(store, None, Some(ed)), e) == ed
  {
  }

  /** Setting neither duration and no callback: no event gets an expiry. */
  lemma NoDurationsNeverExpire(store: DocumentStore, e: LogEvent, now: int)
    ensures ExpiresMetadata(ChosenDuration(PlainSink(store, None, None), e), now).None?
  {
  }

  /** The sentinel for one severity class disables expiry for that class only. */
  lemma InfiniteForOneClass(store: DocumentStore, d: int, e: LogEvent, now: int)
    requires d != Infinite
    ensures IsErrorLevel(e.level) ==>
              ExpiresMetadata(ChosenDuration(PlainSink(store, Some(d), Some(Infinite)), e), now).None?
    ensures !IsErrorLevel(e.level) ==>
              ExpiresMetadata(ChosenDuration(PlainSink(store, Some(d), Some(Infinite)), e), now) == Some(now + d)
    ensures IsErrorLevel(e.level) ==>
              ExpiresMetadata(ChosenDuration(PlainSink(store, Some(Infinite), Some(d)), e), now) == Some(now + d)
    ensures !IsErrorLevel(e.level) ==>
              ExpiresMetadata(ChosenDuration(PlainSink(store, Some(Infinite), Some(d)), e), now).None?
  {
  }

  /** A callback overrides both durations, whatever they are and whatever the level. */
  lemma CallbackOverridesDurations(sink: RavenDBSink, callback: ExpirationCallback, e: LogEvent, now: int)
    requires sink.Valid()
    ensures var s := sink.(logExpirationCallback := Some(callback));
            ExpiresMetadata(ChosenDuration(s, e), now)
              == (if callback(e) == Infinite then None else Some(now + callback(e)))
  {
  }

  /** The concrete setups of the test suite: a day for Information and fifteen
      minutes for errors, and the reverse; a Fatal event with only the default
      set; an Information event with only the error duration set. */
  lemma TestSuiteScenarios(store: DocumentStore, e: LogEvent, now: int)
    ensures e.level == Information ==>
              ExpiresMetadata(ChosenDuration(PlainSink(store, Some(FromDays(1)), Some(FromMinutes(15))), e), now)
                == Some(now + FromDays(1))
    ensures IsErrorLevel(e.level) ==>
              ExpiresMetadata(ChosenDuration(PlainSink(store, Some(FromMinutes(15)), Some(FromDays(1))), e), now)
                == Some(now + FromDays(1))
    ensures e.level == Fatal ==>
              ExpiresMetadata(ChosenDuration(PlainSink(store, Some(FromMinutes(15)), None), e), now)
                == Some(now + FromMinutes(15))
    ensures e.level == Information ==>
              ExpiresMetadata(ChosenDuration(PlainSink(store, None, Some(FromMinutes(15))), e), now)
                == Some(now + FromMinutes(15))
    ensures e.level == Information ==>
              ExpiresMetadata(ChosenDuration(PlainSink(store, Some(Infinite), None), e), now).None?
    ensures e.level == Information ==>
              ExpiresMetadata(ChosenDuration(PlainSink(store, None, Some(Infinite)), e), now).None?
  {
  }
}
