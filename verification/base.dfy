/** Shared vocabulary of the messenger model: optional values, handler replies,
    identifiers, the bot's reserved id and the clock conventions. */
module Base {

  /** A value that may be SQL NULL / JavaScript undefined. */
  datatype Option<+T> = None | Some(value: T)

  /** Identifiers are the UUID strings the handlers generate. */
  type Id = string

  /** The well-known id of the Nebula AI participant. */
  const BotId: Id := "0000-0000-AI"

  /** HTTP status classes the handlers answer with; the JSON body is abstracted to a string. */
  datatype Code = BadRequest | NotFound | ServerError

  /** What a handler sends back: a value, or an error status with its message. */
  datatype Reply<+T> = Ok(value: T) | Fail(code: Code, error: string)

  /** JavaScript truthiness of an optional string: null, undefined and "" are falsy. */
  predicate Truthy(s: Option<string>)
  {
    s.Some? && s.value != ""
  }

  /** MySQL DATETIME columns (CURRENT_TIMESTAMP, NOW()) keep whole seconds only;
      the model's clock counts milliseconds. */
  function DbTime(now: nat): (t: nat)
    ensures t <= now < t + 1000
    ensures t % 1000 == 0
  {
    now / 1000 * 1000
  }
}
