/**
 * The completion service and the JSON parser, seen from the engine: what a
 * `client.chat.completions.create` call returns, and what `json.loads` makes
 * of a text.
 */
module Service {

  /**
   * The outcome of one completion call: the message content, or the text of
   * the exception it raised (network, authentication, a missing content).
   */
  datatype Reply = Completed(content: string) | Failed(reason: string)

  /**
   * A JSON value as Python sees it after `json.loads`: a str, a dict, or any
   * other value (number, boolean, null, list), none of which has `strip`,
   * `lower` or `get`.
   */
  datatype Json = JStr(text: string) | JObj(fields: map<string, Json>) | JOther

  /**
   * What `json.loads(raw)` does: returns a value, raises `JSONDecodeError`,
   * or raises some other exception.
   */
  datatype Parse = Parsed(value: Json) | NotJson | ParserRaised(reason: string)

  /** `d.get(key, default)` on a dict. */
  function Get(fields: map<string, Json>, key: string, default: Json): Json {
    if key in fields then fields[key] else default
  }
}
