/** A declared command-line option: its long name, its one-character short
    name, a description, an optional handler, and the arguments gathered for
    it while a token list is processed. */
module Flags {
  import opened Common

  class Flag {
    /** The long name, matched by a token `--<flag>`. */
    const flag: string
    /** The short name, matched by a token `-<shortFlag>`. */
    const shortFlag: string
    const description: string
    const handler: Option<Handler>
    /** Arguments taken from the token list, in the order they were read. */
    var args: seq<string>

    constructor (flag: string, shortFlag: string, description: string, handler: Option<Handler>)
      ensures this.flag == flag && this.shortFlag == shortFlag
      ensures this.description == description && this.handler == handler
      ensures args == []
    {
      this.flag := flag;
      this.shortFlag := shortFlag;
      this.description := description;
      this.handler := handler;
      args := [];
    }

    /** Appends one argument; the declared fields are constants and stay as they were. */
    method AddArg(arg: string)
      modifies this`args
      ensures args == old(args) + [arg]
    {
      args := args + [arg];
    }
  }
}
