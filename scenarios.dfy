/**
  Concrete exchanges, worked through the model: what the reader does with
  typical console lines and what `read_response` makes of typical queues.
*/
module Scenarios {
  import opened Wrappers
  import opened Text
  import opened IncomingPattern
  import opened Classifier
  import opened Aggregator
  import opened Commands

  /** A push message goes to the callback; its body keeps the '\r' that ended the line. */
  lemma PushMessageIsRouted(raw: string)
    requires raw == "[14:05] Alice >>> hi there\r"
    ensures Classify(raw) == Incoming(Message("Alice", "hi there\r"))
  {
    assert raw == "[14:05] " + "Alice" + Separator + "hi there\r";
    PushLineIsIncoming("[14:05] ", "Alice", "hi there\r");
  }

  /** The greedy sender group runs to the last separator of the line. */
  lemma SenderRunsToLastSeparator()
    ensures FindIncoming("[09:30] a >>> b >>> c\r") == Some(Message("a >>> b", "c\r"))
  {
    assert "[09:30] a >>> b >>> c\r" == "[09:30] " + "a >>> b" + Separator + "c\r";
    WholeLineMessage("[09:30] ", "a >>> b", "c\r");
  }

  /** A notification is dropped, in either mode, though it carries a message-like text. */
  lemma NotificationIsDropped(commandMode: bool)
    ensures Classify("\U{1B}[KUser [10:00] x >>> y\r") == Notification("User [10:00] x >>> y\r")
    ensures Queued("\U{1B}[KUser [10:00] x >>> y\r", commandMode) == []
    ensures Called("\U{1B}[KUser [10:00] x >>> y\r") == []
  {
    assert Strip("\U{1B}[KUser [10:00] x >>> y\r") == "User [10:00] x >>> y\r";
  }

  /** Only one control prefix is removed: a doubled one hides the notification marker. */
  lemma ControlPrefixRemovedOnce()
    ensures Classify("\U{1B}[K\U{1B}[KUser Bob\r") == Content("\U{1B}[KUser Bob\r")
  {
    var line := "\U{1B}[KUser Bob\r";
    assert "\U{1B}[K\U{1B}[KUser Bob\r" == ControlPrefix + line;
    assert line[0] == '\U{1B}';
    NoAngleNoMessage(line);
  }

  /** A lone prompt does not end the response: the session keeps waiting. */
  lemma LonePromptWaits(cmd: string)
    ensures Expected([Prompt], cmd) == Incomplete
  {
    assert !IsStop([Prompt], cmd, 0) by {
      assert [Prompt][..0] == [];
    }
  }

  /** Single-line pieces with no prompt among them, written as one continuation item. */
  predicate PlainPieces(parts: seq<string>) {
    && |parts| >= 1 && parts != ["\r"]
    && forall k :: 0 <= k < |parts| ==> Free(parts[k], '\n') && parts[k] != Prompt
  }

  /** A continuation item made of plain pieces streams exactly those pieces. */
  lemma ItemStreamsItsPieces(parts: seq<string>)
    requires PlainPieces(parts)
    ensures ContinuationPrefix + Join(parts, "\n") != Prompt
    ensures Stream([ContinuationPrefix + Join(parts, "\n")]) == parts
  {
    var content := [ContinuationPrefix + Join(parts, "\n")];
    PiecesOfJoin(parts);
    NoPromptKeepsAll(parts);
    ContinuationIsNotPrompt(parts);
    StreamStep(content, 0);
    assert content[..0] == [] && content[..1] == content;
  }

  /** Two such items stream their pieces one after the other. */
  lemma ItemsStreamTheirPieces(first: seq<string>, second: seq<string>)
    requires PlainPieces(first) && PlainPieces(second)
    ensures ContinuationPrefix + Join(second, "\n") != Prompt
    ensures Stream([ContinuationPrefix + Join(first, "\n"), ContinuationPrefix + Join(second, "\n")]) == first + second
  {
    var content := [ContinuationPrefix + Join(first, "\n"), ContinuationPrefix + Join(second, "\n")];
    ItemStreamsItsPieces(first);
    PiecesOfJoin(second);
    NoPromptKeepsAll(second);
    ContinuationIsNotPrompt(second);
    StreamStep(content, 1);
    assert content[..1] == [content[0]] && content[..2] == content;
  }

  /** The echo as it arrives, "cmd\r", is a plain piece of its own and differs from the command. */
  lemma EchoIsPlain(cmd: string)
    requires Free(cmd, '\n') && cmd != "" && cmd != ContinuationPrefix
    ensures PlainPieces([cmd + "\r"]) && cmd + "\r" != cmd
    ensures ContinuationPrefix + cmd + "\r" == ContinuationPrefix + Join([cmd + "\r"], "\n")
  {
    var echo := cmd + "\r";
    assert |echo| == |cmd| + 1 && echo[..|cmd|] == cmd;
    assert Free(echo, '\n') by {
      assert forall j :: 0 <= j < |cmd| ==> echo[j] == cmd[j];
    }
  }

  /**
    An echo that arrives with its '\r' is not equal to the command, so it is
    kept as the first line of the response, and the last line of the
    response keeps its '\r' too: for "contact_list" the response to
    "> contact_list\r", "> Alice\nBob\r", "> \r" is
    "contact_list\r", "Alice", "Bob\r".
  */
  lemma CarriageReturnEchoIsKept(cmd: string, lines: seq<string>)
    requires Free(cmd, '\n') && cmd != "" && cmd != ContinuationPrefix
    requires PlainPieces(lines) && cmd !in lines
    ensures Expected([ContinuationPrefix + cmd + "\r", ContinuationPrefix + Join(lines, "\n"), Prompt], cmd)
      == Response([cmd + "\r"] + lines)
  {
    var first := [cmd + "\r"];
    EchoIsPlain(cmd);
    var content := [ContinuationPrefix + Join(first, "\n"), ContinuationPrefix + Join(lines, "\n")];
    assert content + [Prompt] + [] == [ContinuationPrefix + cmd + "\r", ContinuationPrefix + Join(lines, "\n"), Prompt];
    ItemsStreamTheirPieces(first, lines);
    assert cmd !in first + lines;
    NoEchoKeepsAll(first + lines, cmd);
    PromptDelimits(content, [], cmd);
  }

  /**
    An echo on a line of its own inside one item cancels that line and
    everything before it: for "contact_list" the response to
    "> banner\ncontact_list\nAlice\nBob\r", "> \r" is "Alice", "Bob\r".
  */
  lemma EchoLineIsCancelled(cmd: string, before: seq<string>, after: seq<string>)
    requires PlainPieces(before + [cmd] + after)
    requires |after| >= 1 && cmd !in after
    ensures Expected([ContinuationPrefix + Join(before + [cmd] + after, "\n"), Prompt], cmd) == Response(after)
  {
    var content := [ContinuationPrefix + Join(before + [cmd] + after, "\n")];
    assert content + [Prompt] + [] == [content[0], Prompt];
    ItemStreamsItsPieces(before + [cmd] + after);
    EchoDiscardsEarlier(before, cmd, after);
    NoEchoKeepsAll(after, cmd);
    PromptDelimits(content, [], cmd);
  }

  /** The message command for a destination with spaces. */
  lemma MessageToSpacedName(dest: string)
    requires dest == "John Smith"
    ensures MessageCommand(dest, "see you") == "msg John_Smith see you"
  {
    var peer := PeerName(dest);
    assert peer[4] == '_';
    assert peer == "John_Smith";
  }
}
