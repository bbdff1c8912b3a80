/**
  The decision the reader makes for each raw line it reads from the
  subprocess (one line is everything up to and including a '\r'): strip one
  leading erase-line sequence, drop "User " notifications, hand push messages
  to the callback, and treat the rest as response content. Whether content
  is queued depends on the session's command mode; `Enqueued` and `Delivered`
  say what a whole batch of raw lines produces.
*/
module Classifier {
  import opened Wrappers
  import opened Text
  import opened IncomingPattern

  /** The terminal's erase-to-end-of-line sequence, ESC [ K. */
  const ControlPrefix := "\U{1B}[K"

  /** The start of an informational notification. */
  const NotificationPrefix := "User "

  /** What one raw line is, once its control prefix is gone. */
  datatype Classified =
    | Notification(line: string)
    | Incoming(message: Message)
    | Content(line: string)

  /** The line with one leading control sequence removed. */
  function Strip(raw: string): (line: string)
    ensures HasPrefix(raw, ControlPrefix) ==> raw == ControlPrefix + line
    ensures !HasPrefix(raw, ControlPrefix) ==> line == raw
  {
    TrimPrefix(raw, ControlPrefix)
  }

  /**
    The category of a raw line. The notification test comes first, so a line
    that also matches the message pattern is a notification.
  */
  function Classify(raw: string): (c: Classified)
    ensures c.Notification? <==> HasPrefix(Strip(raw), NotificationPrefix)
    ensures c.Notification? || c.Content? ==> c.line == Strip(raw)
  {
    var line := Strip(raw);
    if HasPrefix(line, NotificationPrefix) then Notification(line)
    else match FindIncoming(line)
      case Some(m) => Incoming(m)
      case None => Content(line)
  }

  /**
    A line that is not a notification is a push message exactly when the
    pattern occurs in it, and then the message holds the groups of the match
    Go chooses.
  */
  lemma ClassifiedMessage(raw: string)
    ensures Classify(raw).Incoming? <==>
      !HasPrefix(Strip(raw), NotificationPrefix) && exists i: nat, k: nat :: MatchAt(Strip(raw), i, k)
    ensures Classify(raw).Incoming? ==>
      exists i: nat, k: nat :: Chosen(Strip(raw), i, k) && Captures(Strip(raw), i, k, Classify(raw).message)
  {
  }

  /**
    A raw line that is exactly one push message (head, single-line sender,
    separator, single-line body without '>') goes to the callback with the
    sender and the body as they stand.
  */
  lemma PushLineIsIncoming(head: string, sender: string, body: string)
    requires |head| == HeadLength && HeadAt(head, 0)
    requires Free(sender, '\n') && Free(body, '\n') && Free(body, '>')
    ensures Classify(head + sender + Separator + body) == Incoming(Message(sender, body))
  {
    var raw := head + sender + Separator + body;
    assert raw[0] == '[';
    assert Strip(raw) == raw;
    WholeLineMessage(head, sender, body);
  }

  /**
    What the reader pushes onto the response queue for one raw line: its
    stripped form, exactly when a response is awaited and the line is
    neither a notification nor an occurrence of the message pattern.
  */
  function Queued(raw: string, commandMode: bool): (r: seq<string>)
    ensures r == if commandMode && !HasPrefix(Strip(raw), NotificationPrefix)
        && forall i: nat, k: nat :: !MatchAt(Strip(raw), i, k)
      then [Strip(raw)] else []
  {
    var c := Classify(raw);
    if c.Content? && commandMode then [c.line] else []
  }

  /**
    What the reader passes to the incoming callback for one raw line:
    nothing for a notification or a line without the message pattern,
    otherwise one call with the groups of the match Go chooses.
  */
  function Called(raw: string): (r: seq<Message>)
    ensures r == [] <==> HasPrefix(Strip(raw), NotificationPrefix) || forall i: nat, k: nat :: !MatchAt(Strip(raw), i, k)
    ensures r != [] ==> |r| == 1 && exists i: nat, k: nat :: Chosen(Strip(raw), i, k) && Captures(Strip(raw), i, k, r[0])
  {
    var c := Classify(raw);
    if c.Incoming? then [c.message] else []
  }

  /**
    The outcome of one raw line: a notification causes nothing; a push
    message causes one callback with its groups and is never queued,
    whatever the mode; any other line is queued, stripped, exactly when in
    command mode, and causes no callback.
  */
  lemma LineOutcome(raw: string, commandMode: bool)
    ensures HasPrefix(Strip(raw), NotificationPrefix) ==>
      Queued(raw, commandMode) == [] && Called(raw) == []
    ensures !HasPrefix(Strip(raw), NotificationPrefix) && FindIncoming(Strip(raw)).Some? ==>
      Queued(raw, commandMode) == [] && Called(raw) == [FindIncoming(Strip(raw)).value]
    ensures !HasPrefix(Strip(raw), NotificationPrefix) && FindIncoming(Strip(raw)).None? ==>
      && Queued(raw, commandMode) == (if commandMode then [Strip(raw)] else [])
      && Called(raw) == []
  {
  }

  /** Everything a batch of raw lines pushes onto the queue, oldest first. */
  function Enqueued(raws: seq<string>, commandMode: bool): (r: seq<string>)
    ensures |r| <= |raws|
    decreases |raws|
  {
    if raws == [] then []
    else Enqueued(raws[..|raws| - 1], commandMode) + Queued(raws[|raws| - 1], commandMode)
  }

  /** Every callback invocation a batch of raw lines causes, in order. */
  function Delivered(raws: seq<string>): (r: seq<Message>)
    ensures |r| <= |raws|
    decreases |raws|
  {
    if raws == [] then []
    else Delivered(raws[..|raws| - 1]) + Called(raws[|raws| - 1])
  }

  lemma Regroup<T>(prefix: seq<T>, a: seq<T>, b: seq<T>, out: seq<T>)
    requires out == prefix + a + b
    ensures out == prefix + (a + b)
  {
  }

  /** One more raw line adds its own queued line after those of the earlier ones. */
  lemma QueueStep(raws: seq<string>, i: nat, mode: bool, queue: seq<string>, out: seq<string>)
    requires i < |raws|
    requires out == queue + Enqueued(raws[..i], mode) + Queued(raws[i], mode)
    ensures out == queue + Enqueued(raws[..i + 1], mode)
  {
    EnqueuedStep(raws, i, mode);
    Regroup(queue, Enqueued(raws[..i], mode), Queued(raws[i], mode), out);
  }

  lemma EnqueuedStep(raws: seq<string>, i: nat, mode: bool)
    requires i < |raws|
    ensures Enqueued(raws[..i + 1], mode) == Enqueued(raws[..i], mode) + Queued(raws[i], mode)
  {
    assert raws[..i + 1][..i] == raws[..i];
  }

  /** One more raw line adds its own callback after those of the earlier ones. */
  lemma CallStep(raws: seq<string>, i: nat, calls: seq<Message>, out: seq<Message>)
    requires i < |raws|
    requires out == calls + Delivered(raws[..i]) + Called(raws[i])
    ensures out == calls + Delivered(raws[..i + 1])
  {
    DeliveredStep(raws, i);
    Regroup(calls, Delivered(raws[..i]), Called(raws[i]), out);
  }

  lemma DeliveredStep(raws: seq<string>, i: nat)
    requires i < |raws|
    ensures Delivered(raws[..i + 1]) == Delivered(raws[..i]) + Called(raws[i])
  {
    assert raws[..i + 1][..i] == raws[..i];
  }

  /** In idle mode nothing at all reaches the queue. */
  lemma {:induction false} IdleQueuesNothing(raws: seq<string>)
    ensures Enqueued(raws, false) == []
    decreases |raws|
  {
    if raws != [] {
      IdleQueuesNothing(raws[..|raws| - 1]);
    }
  }

  /**
    Every queued line is the stripped form of one of the raw lines, and is
    neither a notification nor a push message: push messages never reach a
    command's response.
  */
  lemma {:induction false} QueuedLinesAreContent(raws: seq<string>, commandMode: bool)
    ensures forall line :: line in Enqueued(raws, commandMode) ==>
      && (exists raw :: raw in raws && Classify(raw) == Content(line))
      && !HasPrefix(line, NotificationPrefix)
      && FindIncoming(line).None?
    decreases |raws|
  {
    if raws != [] {
      var front := raws[..|raws| - 1];
      var last := raws[|raws| - 1];
      QueuedLinesAreContent(front, commandMode);
      forall line | line in Enqueued(raws, commandMode)
        ensures exists raw :: raw in raws && Classify(raw) == Content(line)
      {
        if line in Enqueued(front, commandMode) {
          var raw :| raw in front && Classify(raw) == Content(line);
          assert raw in raws;
        } else {
          assert line in Queued(last, commandMode);
          assert last in raws;
        }
      }
    }
  }

  /**
    In command mode the queue receives exactly the content lines, in order:
    one entry per raw line that is neither a notification nor a message.
  */
  lemma {:induction false} CommandModeQueuesAllContent(raws: seq<string>)
    ensures |Enqueued(raws, true)| == |raws| - |Delivered(raws)| - NotificationCount(raws)
    decreases |raws|
  {
    if raws != [] {
      CommandModeQueuesAllContent(raws[..|raws| - 1]);
    }
  }

  /** How many of the raw lines are notifications. */
  function NotificationCount(raws: seq<string>): (n: nat)
    ensures n <= |raws|
    decreases |raws|
  {
    if raws == [] then 0
    else NotificationCount(raws[..|raws| - 1]) + if Classify(raws[|raws| - 1]).Notification? then 1 else 0
  }
}
