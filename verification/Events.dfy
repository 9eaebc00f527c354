/** The normalized event and the way its fields are looked up. */
module Events {
  import opened Text
  import opened Filter

  datatype Event = Event(
    timestamp: int,
    service: string,
    level: string,
    message: string,
    host: string,
    source: string,
    raw: string,
    attributes: map<string, string>)

  /** Attribute lookup by dotted path, as a partial function to text. */
  function Attribute(ev: Event, path: string): Option<string> {
    if path != "" && path in ev.attributes then Some(ev.attributes[path]) else None
  }

  /** The text of a core field other than the timestamp. */
  function CoreText(ev: Event, field: string): string {
    if field == "service" then ev.service
    else if field == "level" then ev.level
    else if field == "message" then ev.message
    else if field == "host" then ev.host
    else if field == "source" then ev.source
    else if field == "raw" then ev.raw
    else ""
  }

  /** The instant that counts as "not set". */
  const ZERO_TIME := 0

  /** The text of a field as the in-memory matcher sees it: empty means absent. */
  function FieldText(env: Env, ev: Event, field: string): Option<string> {
    if IsAttr(field) then Attribute(ev, AttrPath(field))
    else if field == "timestamp" then
      if ev.timestamp == ZERO_TIME then None else Some(env.showTime(ev.timestamp))
    else if IsCore(field) && CoreText(ev, field) != "" then Some(CoreText(ev, field))
    else None
  }
}
