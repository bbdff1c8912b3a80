/**
  The session object: the state the facade and the reader share, and the
  operations on it. The two goroutines are sequentialised: `Receive` is one
  turn of the reader's loop, and the response channel is the FIFO queue
  `stdout` between them. `stdin` records every string written to the
  subprocess's buffered input, and `flushed` how many of them have been
  flushed, so `Sent()` is what the subprocess can actually have read.
  `delivered` records the calls of the incoming-message callback.
*/
module Session {
  import opened Text
  import opened IncomingPattern
  import opened Classifier
  import opened Aggregator
  import opened Commands

  class Telegram {
    /** The command most recently issued, used to recognise its echo. */
    var issuedCommand: string
    /** Whether a response is being awaited, so that content lines are queued. */
    var commandMode: bool
    /** The response channel: lines queued by the reader and not yet consumed. */
    var stdout: seq<string>
    /** Every string written to the subprocess's buffered input, in order. */
    var stdin: seq<string>
    /** How many of the strings in `stdin` have been flushed to the subprocess. */
    var flushed: nat
    /** The (sender, body) pairs passed to the incoming-message callback, in order. */
    var delivered: seq<Message>

    ghost predicate Valid()
      reads this
    {
      flushed <= |stdin|
    }

    /** What has actually been handed to the subprocess. */
    ghost function Sent(): seq<string>
      reads this
      requires Valid()
    {
      stdin[..flushed]
    }

    /** A fresh session: nothing issued, idle, nothing read or written. */
    constructor ()
      ensures Valid()
      ensures issuedCommand == "" && !commandMode
      ensures stdout == [] && stdin == [] && flushed == 0 && delivered == []
    {
      issuedCommand, commandMode := "", false;
      stdout, stdin, flushed, delivered := [], [], 0, [];
    }

    /**
      One turn of the reader: the raw line is classified; a notification is
      dropped, a push message goes to the callback, and any other line is
      queued in its stripped form only while a response is awaited.
    */
    method Receive(raw: string)
      requires Valid()
      modifies this
      ensures Valid()
      ensures stdout == old(stdout) + Queued(raw, commandMode)
      ensures delivered == old(delivered) + Called(raw)
      ensures issuedCommand == old(issuedCommand) && commandMode == old(commandMode)
      ensures stdin == old(stdin) && flushed == old(flushed)
    {
      var line := TrimPrefix(raw, ControlPrefix);
      if HasPrefix(line, NotificationPrefix) {
        return;
      }
      var incoming := FindIncoming(line);
      if incoming.Some? {
        delivered := delivered + [incoming.value];
        return;
      }
      if commandMode {
        stdout := stdout + [line];
      }
    }

    /** The reader's loop over a finite run of raw lines, with the mode held fixed. */
    method ReadLines(raws: seq<string>)
      requires Valid()
      modifies this
      ensures Valid()
      ensures stdout == old(stdout) + Enqueued(raws, commandMode)
      ensures delivered == old(delivered) + Delivered(raws)
      ensures issuedCommand == old(issuedCommand) && commandMode == old(commandMode)
      ensures stdin == old(stdin) && flushed == old(flushed)
    {
      for i := 0 to |raws|
        invariant Valid()
        invariant stdout == old(stdout) + Enqueued(raws[..i], commandMode)
        invariant delivered == old(delivered) + Delivered(raws[..i])
        invariant issuedCommand == old(issuedCommand) && commandMode == old(commandMode)
        invariant stdin == old(stdin) && flushed == old(flushed)
      {
        ReceiveNext(raws, i, old(stdout), old(delivered));
      }
      assert raws[..|raws|] == raws;
    }

    /** The reader's turn for `raws[i]`, once `raws[..i]` have been read on top of `queue` and `calls`. */
    method ReceiveNext(raws: seq<string>, i: nat, ghost queue: seq<string>, ghost calls: seq<Message>)
      requires Valid() && i < |raws|
      requires stdout == queue + Enqueued(raws[..i], commandMode)
      requires delivered == calls + Delivered(raws[..i])
      modifies this
      ensures Valid()
      ensures stdout == queue + Enqueued(raws[..i + 1], commandMode)
      ensures delivered == calls + Delivered(raws[..i + 1])
      ensures issuedCommand == old(issuedCommand) && commandMode == old(commandMode)
      ensures stdin == old(stdin) && flushed == old(flushed)
    {
      Receive(raws[i]);
      QueueStep(raws, i, commandMode, queue, stdout);
      CallStep(raws, i, calls, delivered);
    }

    /**
      `read_response`: consume the queue up to the prompt that ends the
      response, then leave command mode. If that prompt is not queued yet,
      nothing is consumed and the session keeps waiting.
    */
    method ReadResponse() returns (r: Reply)
      requires Valid()
      modifies this
      ensures Valid()
      ensures r == Expected(old(stdout), issuedCommand)
      ensures stdout == Remaining(old(stdout), issuedCommand)
      ensures commandMode == (if r.Response? then false else old(commandMode))
      ensures r.Response? ==> r.lines != [] && Prompt !in r.lines && issuedCommand !in r.lines
      ensures issuedCommand == old(issuedCommand) && delivered == old(delivered)
      ensures stdin == old(stdin) && flushed == old(flushed)
    {
      var rest;
      r, rest := Collect(stdout, issuedCommand);
      if r.Response? {
        ResponseShape(stdout, issuedCommand);
        stdout := rest;
        commandMode := false;
      }
    }

    /**
      `execute`: record the command, enter command mode, write the command
      and a newline and flush, then read the response.
    */
    method Execute(order: string) returns (r: Reply)
      requires Valid()
      modifies this
      ensures Valid()
      ensures issuedCommand == order
      ensures stdin == old(stdin) + [order + "\n"] && Sent() == stdin
      ensures r == Expected(old(stdout), order) && stdout == Remaining(old(stdout), order)
      ensures commandMode == r.Incomplete?
      ensures r.Response? ==> r.lines != [] && Prompt !in r.lines && order !in r.lines
      ensures delivered == old(delivered)
    {
      issuedCommand := order;
      commandMode := true;
      stdin := stdin + [order + "\n"];
      flushed := |stdin|;
      r := ReadResponse();
    }

    /** `ListContacts`: the response to "contact_list". */
    method ListContacts() returns (r: Reply)
      requires Valid()
      modifies this
      ensures Valid()
      ensures issuedCommand == ListContactsCommand
      ensures stdin == old(stdin) + [ListContactsCommand + "\n"] && Sent() == stdin
      ensures r == Expected(old(stdout), ListContactsCommand)
      ensures stdout == Remaining(old(stdout), ListContactsCommand)
      ensures commandMode == r.Incomplete?
      ensures delivered == old(delivered)
    {
      r := Execute(ListContactsCommand);
    }

    /**
      `SendMessage`: execute the message command for `dest` and `message`;
      the response is read and discarded.
    */
    method SendMessage(dest: string, message: string)
      requires Valid()
      modifies this
      ensures Valid()
      ensures issuedCommand == MessageCommand(dest, message)
      ensures stdin == old(stdin) + [MessageCommand(dest, message) + "\n"] && Sent() == stdin
      ensures stdout == Remaining(old(stdout), MessageCommand(dest, message))
      ensures commandMode == Expected(old(stdout), MessageCommand(dest, message)).Incomplete?
      ensures delivered == old(delivered)
    {
      var command := MessageCommand(dest, message);
      var _ := Execute(command);
    }

    /**
      `Quit` as written: "quit\n" goes into the input buffer and nothing
      flushes it, so it is not among what has been sent.
    */
    method Quit()
      requires Valid()
      modifies this
      ensures Valid()
      ensures stdin == old(stdin) + [QuitCommand + "\n"]
      ensures Sent() == old(Sent()) && |Sent()| < |stdin|
      ensures issuedCommand == old(issuedCommand) && commandMode == old(commandMode)
      ensures stdout == old(stdout) && delivered == old(delivered)
    {
      stdin := stdin + [QuitCommand + "\n"];
      assert stdin[..flushed] == old(stdin)[..flushed];
    }

    /** `Quit` with the flush it lacks: "quit\n" reaches the subprocess. */
    method QuitFlushed()
      requires Valid()
      modifies this
      ensures Valid()
      ensures stdin == old(stdin) + [QuitCommand + "\n"]
      ensures Sent() == old(stdin) + [QuitCommand + "\n"]
      ensures issuedCommand == old(issuedCommand) && commandMode == old(commandMode)
      ensures stdout == old(stdout) && delivered == old(delivered)
    {
      stdin := stdin + [QuitCommand + "\n"];
      flushed := |stdin|;
    }

    /**
      The start-up sequence of `New`, once the process runs: enter command
      mode, read and discard the banner, list the contacts so the subprocess
      loads them, and leave command mode. `started` is false when the
      session is still waiting for one of the two responses.
    */
    method Start() returns (started: bool)
      requires Valid()
      modifies this
      ensures Valid()
      ensures delivered == old(delivered)
      ensures Expected(old(stdout), old(issuedCommand)).Incomplete? ==>
        && !started && commandMode && stdout == old(stdout)
        && issuedCommand == old(issuedCommand) && stdin == old(stdin) && flushed == old(flushed)
      ensures Expected(old(stdout), old(issuedCommand)).Response? ==>
        var rest := Remaining(old(stdout), old(issuedCommand));
        && issuedCommand == ListContactsCommand
        && stdin == old(stdin) + [ListContactsCommand + "\n"] && Sent() == stdin
        && started == Expected(rest, ListContactsCommand).Response?
        && stdout == Remaining(rest, ListContactsCommand)
        && commandMode == !started
    {
      commandMode := true;
      var banner := ReadResponse();
      if banner.Incomplete? {
        return false;
      }
      var contacts := ListContacts();
      if contacts.Incomplete? {
        return false;
      }
      commandMode := false;
      started := true;
    }
  }
}
