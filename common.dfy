/** Small value types shared by the command-line engine: optional values,
    results of operations that may throw, handler identities and the
    errors the engine raises. */
module Common {

  datatype Option<+T> = None | Some(value: T)

  /** The value of an operation that either returns normally or throws. */
  datatype Result<+T> = Ok(value: T) | Err(error: CliError)

  /** A handler is an arbitrary callback in the source. The model keeps only
      its identity, so that which handlers run, and with what, can be stated. */
  datatype Handler = Handler(id: nat)

  /** The two error classes the engine throws, with their messages. */
  datatype CliError = TypeError(message: string) | Error(message: string)

  const NameMessage: string := "Argument 'name' must be a valid string"
  const CommandMessage: string := "Argument 'command' must be a Cli object"

  function DuplicateMessage(name: string): string {
    "Command " + name + " has already been defined"
  }

  function InvalidFlagMessage(token: string): string {
    "Invalid flag: " + token
  }
}
