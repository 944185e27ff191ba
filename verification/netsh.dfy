/** The `netsh` command-line tool as an oracle. The process it starts is outside the
    model; what is kept is the sequence of invocations and the reply each one gave,
    so that callers can state which commands they issued and what they did with the
    answers. */
module NetshOracle {

  /** One invocation of `netsh` with its arguments and its reply: an exit status
      (`RunNetshCommandAsync`) or the captured standard output
      (`RunNetshCommandWithOutputAsync`). A start failure or an exception reads as a
      failed command or an empty output. */
  datatype Call =
    | Command(arguments: string, succeeded: bool)
    | Listing(arguments: string, output: string)

  class Netsh {
    /** Every invocation so far, oldest first. */
    var history: seq<Call>

    constructor ()
      ensures history == []
    {
      history := [];
    }

    /** Runs `netsh arguments`; the reply is whatever the firewall reports. */
    method RunNetshCommand(arguments: string) returns (succeeded: bool)
      modifies this
      ensures history == old(history) + [Command(arguments, succeeded)]
    {
      succeeded := *;
      history := history + [Command(arguments, succeeded)];
    }

    /** Runs `netsh arguments` and returns its standard output. */
    method RunNetshCommandWithOutput(arguments: string) returns (output: string)
      modifies this
      ensures history == old(history) + [Listing(arguments, output)]
    {
      output := *;
      history := history + [Listing(arguments, output)];
    }
  }
}
