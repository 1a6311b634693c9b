/** The Serilog log event as the sink consumes it, and the document it stores. */
module LogEvents {
  import opened Wrappers

  /** `LogEventLevel`, in increasing severity. */
  datatype Level = Verbose | Debug | Information | Warning | Error | Fatal

  /** The severity class that uses the error expiration. */
  predicate IsErrorLevel(l: Level) {
    l == Error || l == Fatal
  }

  /** A Serilog event. Property values are kept in their rendered string form;
      how they are simplified for storage is not part of this model. */
  datatype LogEvent = LogEvent(
    timestamp: int,
    level: Level,
    messageTemplate: string,
    properties: map<string, string>,
    exceptionMessage: Option<string>)

  /** The stored `Data.LogEvent` document: built from the event and its message
      rendered with the sink's format provider. Its field layout is not modelled. */
  datatype Doc = Doc(source: LogEvent, renderedMessage: string)

  /** `LogEvent.RenderMessage(formatProvider)`, supplied by the caller of the model. */
  type Renderer = (LogEvent, Option<string>) -> string
}
