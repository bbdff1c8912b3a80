# go-telegram console protocol, modelled in Dafny

This project models the engine at the heart of the Go `telegram` package
(`telegram/telegram.go`). The package drives the `telegram-cli` console
client as a subprocess. That client writes one unframed text stream that
mixes:

- command responses;
- echoes of the commands it was sent;
- prompts;
- "User ..." notifications;
- push messages of the form `[HH:MM] sender >>> body`.

The engine turns this stream into discrete responses and callbacks. It has
three parts, each modelled here:

- **The reader's per-line decision** (`readlines`). Module `Classifier`
  covers it, with the message pattern in `IncomingPattern`. It removes one
  leading erase-line sequence `ESC [ K` and drops notifications. It hands
  push messages to the incoming callback. Any other line goes onto the
  response queue, but only while a command is outstanding.
- **Response aggregation** (`read_response`). Module `Aggregator` covers
  it. Queued items are consumed until the prompt `"> \r"` arrives with
  something already collected. Each other item loses one `"> "` and is split
  at `'\n'`. Prompt pieces are skipped. A piece equal to the issued command
  (its echo) discards everything collected so far.
- **The command facade** (`execute`, `ListContacts`, `SendMessage`, `Quit`
  and the start-up sequence of `New`). The class `Session.Telegram` covers
  these, with the command strings in `Commands`.

`Text` gives the Go `strings` functions the engine uses, with Go's exact
semantics:

- `TrimPrefix` removes at most one occurrence.
- `Split` on `"\n"` always yields at least one piece, so `""` gives `[""]`.
- `Join` and `Replace` follow Go.

Environment choices:

- **The two goroutines are sequentialised.** The response channel is the
  FIFO field `stdout`. `Receive` is one turn of the reader's loop, and
  `ReadLines` is a finite run of such turns.
- **Callbacks.** Calls of the incoming callback are logged in `delivered`.
- **stdin.** The buffered writer to the subprocess is the list `stdin` of
  strings written, plus the count `flushed` of those flushed. `Sent()` is
  what the subprocess can have received.
- **A blocked `read_response`.** In Go, `read_response` blocks until its
  prompt arrives. Here it works on the finite queue it is given. If the
  prompt that ends the response is not there, the reply is `Incomplete` and
  nothing is consumed. Feeding more lines and reading again then gives what
  Go would return on the longer stream: once a response is complete,
  neither it nor what remains depends on what is queued after it
  (`Aggregator.MoreInputKeepsResponse`).

Each loop (`Collect` with its inner `CollectPieces`, and `ReadLines`) is
proved against a specification function:

- `Expected`, `Remaining`, `Stream`, `AfterLast` and `FirstStop` for
  aggregation;
- `Enqueued` and `Delivered` for the reader.

The properties are stated as lemmas about those functions.

Three consequences of the code are worth stating. The first contradicts
the comment at telegram/telegram.go:146-147; the other two are stated
because they are easy to miss.

- **The echo of a command is not always removed.** That comment says the
  reset of the collected lines is there to drop telegram's echo of the
  command. But `ReadString('\r')` keeps the `'\r'`, so an echo arriving as `"> contact_list\r"` yields the
  piece `"contact_list\r"`, which differs from `"contact_list"` and is
  kept. The reply to `"> contact_list\r"`, `"> Alice\nBob\r"`, `"> \r"` is
  `["contact_list\r", "Alice", "Bob\r"]`
  (`Scenarios.CarriageReturnEchoIsKept`). An echo on a line of its own
  inside one item is removed (`Scenarios.EchoLineIsCancelled`).
- **Message bodies keep their `'\r'`.** The body of a push message keeps
  its trailing `'\r'`, because `.` in the pattern matches it
  (`Scenarios.PushMessageIsRouted`).
- **Idle content is dropped.** A content line that arrives while no command
  is outstanding is discarded without even a log call
  (telegram/telegram.go:112-115; `Classifier.IdleQueuesNothing`).

## Model

| member | source | states |
|---|---|---|
| Text.PrefixByCharacters | telegram/telegram.go:99 | a line starts with a prefix exactly when it is at least as long and agrees with the prefix at each of its positions |
| Text.JoinEnds | telegram/telegram.go:177 | a join of at least one part opens with the first part and closes with the last |
| Text.TrimPrefix | telegram/telegram.go:95 | with the prefix present the input is prefix + result; otherwise the input is returned unchanged |
| Text.Split | telegram/telegram.go:138 | splitting always yields at least one piece |
| Text.SplitPiecesAreFree | telegram/telegram.go:138 | no piece contains the separator |
| Text.JoinSplit | telegram/telegram.go:135-138 | joining the pieces with the separator gives back the split text |
| Text.SplitJoin | telegram/telegram.go:138 | splitting a join of separator-free parts gives back exactly those parts |
| Text.Replace | telegram/telegram.go:175 | same length; each occurrence of `from` becomes `to`, every other character is kept |
| Text.JoinThree | telegram/telegram.go:176-177 | joining three parts puts one separator between neighbours |
| IncomingPattern.LastSeparator | telegram/telegram.go:85 | finds the last " >>> " starting in a range, and reports None exactly when there is none |
| IncomingPattern.GreedyMatchAt | telegram/telegram.go:85 | from a `[HH:MM] ` head, the last separator of that line gives a match, and no later separator does |
| IncomingPattern.NoMatchAt | telegram/telegram.go:85 | a head with no separator in its line starts no match |
| IncomingPattern.Search | telegram/telegram.go:85 | the match found starts leftmost, and its first group is the longest possible; None means the pattern occurs nowhere |
| IncomingPattern.FindIncoming | telegram/telegram.go:106-108 | None exactly when no match exists; otherwise the groups of the match Go chooses (leftmost start, greedy sender, body running to the end of the line) |
| IncomingPattern.WholeLineMessage | telegram/telegram.go:106-108 | a line made of head, single-line sender, separator and a body without '>' yields exactly that sender and body, '\r' included |
| IncomingPattern.NoAngleNoMessage | telegram/telegram.go:85 | a line without '>' never matches |
| IncomingPattern.CapturesUnique | telegram/telegram.go:106-108 | the groups of a given match are uniquely determined |
| IncomingPattern.GroupsAreSingleLine | telegram/telegram.go:85 | neither reported group contains '\n' |
| Classifier.Strip | telegram/telegram.go:95 | exactly one leading ESC [ K is removed when present; otherwise the line is unchanged |
| Classifier.Classify | telegram/telegram.go:95-110 | notification exactly when the stripped line starts with "User ", checked before the pattern; notification and content carry the stripped line |
| Classifier.ClassifiedMessage | telegram/telegram.go:104-110 | a non-notification line is a push message exactly when the pattern occurs in it, and then carries the groups of the chosen match |
| Classifier.LineOutcome | telegram/telegram.go:97-115 | a notification queues nothing and calls nothing; a push message calls the callback once and is never queued in either mode; any other line is queued in stripped form exactly in command mode |
| Classifier.PushLineIsIncoming | telegram/telegram.go:106-110 | a raw line that is one push message reaches the callback with its sender and body |
| Classifier.Queued | telegram/telegram.go:95-115 | one raw line queues its stripped form exactly when a command is outstanding, the stripped line does not start with "User " and the message pattern occurs nowhere in it; otherwise nothing |
| Classifier.Called | telegram/telegram.go:95-109 | one raw line causes no callback exactly when its stripped form starts with "User " or the message pattern occurs nowhere in it; otherwise exactly one, with the groups of the match Go chooses |
| Classifier.Enqueued | telegram/telegram.go:87-116 | the queue a run of raw lines produces, each line's entry after those of the earlier lines; never more entries than lines |
| Classifier.Delivered | telegram/telegram.go:87-116 | the callbacks a run of raw lines causes, in order; never more calls than lines |
| Classifier.IdleQueuesNothing | telegram/telegram.go:112-115 | in idle mode no raw line reaches the queue |
| Classifier.QueuedLinesAreContent | telegram/telegram.go:104-115 | every queued line is the stripped form of a raw line, and is neither a notification nor a push message |
| Classifier.CommandModeQueuesAllContent | telegram/telegram.go:112-115 | in command mode every line that is neither a notification nor a message is queued |
| Aggregator.Pieces | telegram/telegram.go:135-138 | an item's pieces are never empty as a list, and joined with '\n' they give the item less one "> " |
| Aggregator.PiecesOfJoin | telegram/telegram.go:135-138 | an item written as "> " plus single-line parts splits back into exactly those parts |
| Aggregator.DropPrompts | telegram/telegram.go:140-142 | the kept pieces never include the prompt |
| Aggregator.NoPromptKeepsAll | telegram/telegram.go:140-142 | with no prompt among the pieces, all are kept in order |
| Aggregator.Contribution | telegram/telegram.go:125-142 | a queued item contributes no prompt piece |
| Aggregator.Stream | telegram/telegram.go:135-151 | the kept pieces of all consumed items, in arrival order, contain no prompt |
| Aggregator.ContinuationIsNotPrompt | telegram/telegram.go:125 | an item "> " + parts equals the prompt only when its single part is "\r" |
| Aggregator.AppendStep | telegram/telegram.go:144-150 | appending a piece keeps it, unless it is the echo, which empties the collection |
| Aggregator.AfterLastIsSuffix | telegram/telegram.go:146-150 | `AfterLast`, the echo reset applied to a stream of pieces, keeps an echo-free suffix of the stream, preceded by the echo when shorter |
| Aggregator.SuffixIsAfterLast | telegram/telegram.go:146-150 | conversely, such a suffix is exactly what is kept |
| Aggregator.EchoDiscardsEarlier | telegram/telegram.go:148-150 | everything up to and including an echo is discarded |
| Aggregator.NoEchoKeepsAll | telegram/telegram.go:144 | without an echo every piece is kept |
| Aggregator.FirstStopFrom | telegram/telegram.go:125-133 | reading stops at the first prompt item with something collected; no earlier item is such a stop, and None means none is |
| Aggregator.FirstStopIsLeast | telegram/telegram.go:125-133 | conversely, the least such prompt is where reading stops |
| Aggregator.Expected | telegram/telegram.go:119-156 | the reply `read_response` gives for a queue and an issued command; a response is never empty |
| Aggregator.Remaining | telegram/telegram.go:119-156 | what `read_response` leaves in the queue; it only ever consumes from the front, so what remains is a suffix of the queue |
| Aggregator.ResponseIffStop | telegram/telegram.go:122-133 | there is a response exactly when some queued prompt follows collected content, and the queue is left untouched exactly when there is none |
| Aggregator.MoreInputKeepsResponse | telegram/telegram.go:119-156 | once a queue holds a complete response, a longer queue gives the same response and leaves the extra items after the same remainder |
| Aggregator.Collect | telegram/telegram.go:119-156 | the loop returns exactly the specified response and leaves exactly the items after the stopping prompt |
| Aggregator.CollectPieces | telegram/telegram.go:139-151 | the inner loop leaves the echo-free tail of the stream extended by the item's kept pieces |
| Aggregator.ResponseShape | telegram/telegram.go:125-150 | a finished response is non-empty, holds neither the prompt nor the command, and ends at a prompt item |
| Aggregator.FirstStopAfterPrompt | telegram/telegram.go:130-131 | a leading prompt shifts the stop by one item and changes nothing else |
| Aggregator.LeadingPromptIsSkipped | telegram/telegram.go:126-132 | a prompt that arrives before any content does not change the response |
| Aggregator.PromptDelimits | telegram/telegram.go:125-129 | prompt-free content followed by the prompt yields the echo-free part of its stream and leaves what follows the prompt |
| Commands.PeerName | telegram/telegram.go:175 | same length, no space, every non-space character unchanged |
| Commands.MessageCommand | telegram/telegram.go:175-177 | the command is "msg ", the peer name, one space, then the message unchanged |
| Commands.MessageCommandParses | telegram/telegram.go:175-177 | splitting the command at the first space after "msg " gives back the peer name and the message, whatever the message holds |
| Session.Telegram.constructor | telegram/telegram.go:45-46 | a new session is idle, with no command issued, nothing queued, written or delivered |
| Session.Telegram.Receive | telegram/telegram.go:94-115 | one reader turn appends what the line queues in the current mode and logs the callback it causes; the mode, the command and stdin are unchanged |
| Session.Telegram.ReadLines | telegram/telegram.go:87-116 | the reader over a run of lines queues exactly their content lines in order (in command mode) and logs exactly their messages in order |
| Session.Telegram.ReadResponse | telegram/telegram.go:119-156 | returns the specified response, consumes through its prompt and leaves command mode; an incomplete read consumes nothing; a response is non-empty and holds neither the prompt nor the command |
| Session.Telegram.Execute | telegram/telegram.go:158-166 | records the command, appends exactly command + "\n" to stdin and flushes, and returns the response to it; command mode remains only while the response is incomplete |
| Session.Telegram.ListContacts | telegram/telegram.go:168-171 | is Execute of "contact_list" |
| Session.Telegram.SendMessage | telegram/telegram.go:173-179 | executes the message command for the destination and message, discarding the response |
| Session.Telegram.Quit | telegram/telegram.go:181-183 | appends "quit\n" to stdin without flushing; what was sent is unchanged, and nothing else changes |
| Session.Telegram.QuitFlushed | telegram/telegram.go:181-183 | appends "quit\n" and flushes, so the subprocess receives it |
| Session.Telegram.Start | telegram/telegram.go:73-80 | enters command mode, drains the banner response, then lists the contacts; started exactly when both responses are complete, and then idle |
| Scenarios.PushMessageIsRouted | telegram/telegram.go:106-110 | "[14:05] Alice >>> hi there\r" is the message (Alice, "hi there\r") |
| Scenarios.SenderRunsToLastSeparator | telegram/telegram.go:85 | in "[09:30] a >>> b >>> c\r" the sender is "a >>> b" |
| Scenarios.NotificationIsDropped | telegram/telegram.go:95-102 | a "User " line that also looks like a message is a notification, queues nothing and calls nothing |
| Scenarios.ControlPrefixRemovedOnce | telegram/telegram.go:95-99 | with two control prefixes the second survives, so the "User " line becomes content |
| Scenarios.LonePromptWaits | telegram/telegram.go:125-132 | a prompt alone does not end the response |
| Scenarios.CarriageReturnEchoIsKept | telegram/telegram.go:135-150 | an echo item "> cmd\r" is kept as the piece "cmd\r", and the last piece keeps its '\r' |
| Scenarios.EchoLineIsCancelled | telegram/telegram.go:139-150 | an echo line inside an item cancels itself and everything before it |
| Scenarios.MessageToSpacedName | telegram/telegram.go:175-177 | the command for "John Smith" and "see you" is "msg John_Smith see you" |

## Left out

- Process launch, pipe setup and the error returns in `New`
  (telegram/telegram.go:48-71). These are operating-system I/O. `Start`
  models only the mode and response sequence that follows them.
- The goroutine itself and the channel's capacity of 3
  (telegram/telegram.go:57-58). The queue is unbounded, and reader turns
  are explicit calls. The reader reads `command_mode` without
  synchronisation, which is a data race. That race has no sequential
  meaning and is not modelled.
- `ReadString('\r')` and the fatal exit on a read error
  (telegram/telegram.go:88-91). Raw lines are inputs to `Receive` and
  `ReadLines`. Normally each ends in its `'\r'`. At end of stream,
  `ReadString` returns the partial last line without a `'\r'`, together
  with `io.EOF`. Line 89 lets the loop classify that line and carry on.
  From then on every read returns `""` with `io.EOF`, so the loop runs
  forever on empty lines. In command mode each of those is queued, and
  `read_response` collects it as an empty piece. The exception is the
  banner read in `New`, where `issued_command` is still `""`: there an
  empty piece equals the command and empties the collection. The model
  accepts any string as a raw line, so the partial line and the empty
  lines are covered when they are passed in explicitly. The model does not generate
  the endless run of empty lines by itself.
- Blocking. A `read_response` waiting for more input is `Incomplete` over
  the finite queue it is given. The unbounded reader loop is `ReadLines`
  over a finite run of lines.
- `bufio.Writer` buffering beyond the count of flushed writes. Writes are
  whole strings, and partial or automatic flushes of a full buffer are not
  modelled.
- The general regular-expression engine. Only the one fixed pattern is
  modelled, by a hand-written matcher and its specification.
- Bytes versus characters. Go strings are byte sequences, and this model's
  strings are sequences of characters. Every literal the engine compares
  is ASCII, so the decisions agree on ASCII input. How invalid UTF-8 is
  handled is not modelled.
- Logging (`logger.*` calls and logging/logging.go), which has no effect on
  the engine's state.
- tgram.go, the command-line front end: flag parsing, the interactive loop
  and printing. The exit right after `Quit` is the context of the finding
  below. tgram.go is not part of this model.
- Session.Telegram.ReadLines: holds the mode fixed for the whole run of
  lines. In Go the mode can change between two reads of the reader
  goroutine. A mode change is modelled by calling `ReadLines` again after
  the change.

## Findings

| source | as written | input that shows it | evidently intended | confidence | as-written member | corrected member |
|---|---|---|---|---|---|---|
| telegram/telegram.go:181-183 | `Quit` writes "quit\n" into the buffered writer and never flushes it; the caller exits right afterwards | any session: after `Quit`, what the subprocess has been sent does not include "quit\n" | write "quit\n" and flush, as every other command is (telegram/telegram.go:162-163), so the subprocess sees the quit command | medium, not executed | Session.Telegram.Quit | Session.Telegram.QuitFlushed |
