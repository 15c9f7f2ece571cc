/** `Razor::InvalidConfigurationError` and the regex engine's own error (lib/razor/config.rb:5-10). */
module Errors {

  /** The message used when none is given. */
  const DefaultMessage := "setting is invalid"

  datatype Error =
    | InvalidConfiguration(key: string, message: string)
    | RegexpError(message: string)

  /** `InvalidConfigurationError.new(key, msg)`: keeps the key and prefixes the message with it. */
  function InvalidConfigurationError(key: string, msg: string := DefaultMessage): (e: Error)
    ensures e.InvalidConfiguration? && e.key == key
    ensures e.message == "entry " + key + ": " + msg
  {
    InvalidConfiguration(key, "entry " + key + ": " + msg)
  }
}
