/**
  How the lines queued while a command is outstanding become that command's
  response. The queue is read item by item until the prompt "> \r" arrives
  with something already collected. Every other item loses one leading "> "
  and is split at '\n'; pieces equal to the prompt are skipped, the rest are
  collected, and a piece equal to the issued command (its echo) throws away
  everything collected so far, itself included.

  The specification does not follow that loop: `Stream` is every kept piece
  in order, `AfterLast` its part after the last echo, and `FirstStop` the
  first prompt at which that part is non-empty. `Collect` is the loop, and is
  proved to compute exactly `Expected` and `Remaining`.
*/
module Aggregator {
  import opened Wrappers
  import opened Text

  /** The end-of-response prompt, with the '\r' the reader keeps. */
  const Prompt := "> \r"

  /** The prefix of continuation lines. */
  const ContinuationPrefix := "> "

  /** The outcome of waiting for a response on a finite queue. */
  datatype Reply =
    | Response(lines: seq<string>)
    | Incomplete  // the prompt that ends the response has not arrived yet

  /** The pieces of a queued item: one "> " removed, then split at '\n'. */
  function Pieces(item: string): (ps: seq<string>)
    ensures |ps| >= 1
    ensures Join(ps, "\n") == TrimPrefix(item, ContinuationPrefix)
  {
    var ps := Split(TrimPrefix(item, ContinuationPrefix), '\n');
    JoinSplit(TrimPrefix(item, ContinuationPrefix), '\n');
    ps
  }

  /** The pieces that are not the prompt, in order. */
  function DropPrompts(ps: seq<string>): (r: seq<string>)
    ensures Prompt !in r
    decreases |ps|
  {
    if ps == [] then []
    else
      var last := ps[|ps| - 1];
      assert ps == ps[..|ps| - 1] + [last];
      DropPrompts(ps[..|ps| - 1]) + if last == Prompt then [] else [last]
  }

  /** A continuation item built from single-line parts splits back into exactly those parts. */
  lemma PiecesOfJoin(parts: seq<string>)
    requires |parts| >= 1
    requires forall k :: 0 <= k < |parts| ==> Free(parts[k], '\n')
    ensures Pieces(ContinuationPrefix + Join(parts, "\n")) == parts
  {
    var item := ContinuationPrefix + Join(parts, "\n");
    assert TrimPrefix(item, ContinuationPrefix) == Join(parts, "\n");
    SplitJoin(parts, '\n');
  }

  /** A continuation item is the prompt only when its one part is "\r". */
  lemma ContinuationIsNotPrompt(parts: seq<string>)
    requires |parts| >= 1 && parts != ["\r"]
    ensures ContinuationPrefix + Join(parts, "\n") != Prompt
  {
    var joined := Join(parts, "\n");
    if |parts| == 1 {
      assert parts == [joined];
      assert Prompt[|ContinuationPrefix|..] == "\r";
      assert (ContinuationPrefix + joined)[|ContinuationPrefix|..] == joined;
    } else {
      assert joined == parts[0] + "\n" + Join(parts[1..], "\n");
      assert (ContinuationPrefix + joined)[|ContinuationPrefix| + |parts[0]|] == '\n';
    }
  }

  /** With no prompt among the pieces, all of them are kept. */
  lemma {:induction false} NoPromptKeepsAll(ps: seq<string>)
    requires Prompt !in ps
    ensures DropPrompts(ps) == ps
    decreases |ps|
  {
    if ps != [] {
      NoPromptKeepsAll(ps[..|ps| - 1]);
      assert ps == ps[..|ps| - 1] + [ps[|ps| - 1]];
    }
  }

  /** What one queued item adds to the stream: nothing for a prompt. */
  function Contribution(item: string): (r: seq<string>)
    ensures Prompt !in r
  {
    if item == Prompt then [] else DropPrompts(Pieces(item))
  }

  /** Every kept piece of the queued items, in order of arrival. */
  function Stream(items: seq<string>): (r: seq<string>)
    ensures Prompt !in r
    decreases |items|
  {
    if items == [] then []
    else Stream(items[..|items| - 1]) + Contribution(items[|items| - 1])
  }

  /** The part of `xs` after its last element equal to `c` (all of `xs` if there is none). */
  function AfterLast(xs: seq<string>, c: string): (r: seq<string>)
    decreases |xs|
  {
    if xs == [] then []
    else if xs[|xs| - 1] == c then []
    else AfterLast(xs[..|xs| - 1], c) + [xs[|xs| - 1]]
  }

  /** Item `n` ends the response: it is the prompt and something has been collected before it. */
  predicate IsStop(items: seq<string>, cmd: string, n: nat)
    requires n < |items|
  {
    items[n] == Prompt && AfterLast(Stream(items[..n]), cmd) != []
  }

  /** The first item at or after `from` that ends the response. */
  function FirstStopFrom(items: seq<string>, cmd: string, from: nat): (r: Option<nat>)
    ensures r.Some? ==> from <= r.value < |items| && IsStop(items, cmd, r.value)
    ensures r.Some? ==> forall m :: from <= m < r.value ==> !IsStop(items, cmd, m)
    ensures r.None? ==> forall m :: from <= m < |items| ==> !IsStop(items, cmd, m)
    decreases |items| - from
  {
    if |items| <= from then None
    else if IsStop(items, cmd, from) then Some(from)
    else
      var r := FirstStopFrom(items, cmd, from + 1);
      assert forall m :: from <= m < from + 1 ==> !IsStop(items, cmd, m);
      r
  }

  /** The first item of the queue that ends the response, if any. */
  function FirstStop(items: seq<string>, cmd: string): (r: Option<nat>) {
    FirstStopFrom(items, cmd, 0)
  }

  /** The response `read_response` returns after issuing `cmd`, reading `items`. */
  function Expected(items: seq<string>, cmd: string): (r: Reply)
    ensures r.Response? ==> r.lines != []
  {
    match FirstStop(items, cmd)
    case Some(n) => Response(AfterLast(Stream(items[..n]), cmd))
    case None => Incomplete
  }

  /** What is left in the queue afterwards; an incomplete read takes nothing. */
  function Remaining(items: seq<string>, cmd: string): (r: seq<string>)
    ensures |r| <= |items| && r == items[|items| - |r|..]
  {
    match FirstStop(items, cmd)
    case Some(n) => items[n + 1..]
    case None => items
  }

  /**
    There is a response exactly when some item ends it, and the queue is
    left as it was exactly when there is none.
  */
  lemma ResponseIffStop(items: seq<string>, cmd: string)
    ensures Expected(items, cmd).Response? <==> exists n :: 0 <= n < |items| && IsStop(items, cmd, n)
    ensures Remaining(items, cmd) == items <==> Expected(items, cmd).Incomplete?
  {
    match FirstStop(items, cmd)
    case Some(n) =>
      assert IsStop(items, cmd, n);
      assert |Remaining(items, cmd)| < |items|;
    case None =>
  }

  /**
    The loop of `read_response` over the queued `items`, with `cmd` the
    issued command: it returns the response and what is left in the queue.
  */
  method Collect(items: seq<string>, cmd: string) returns (r: Reply, rest: seq<string>)
    ensures r == Expected(items, cmd)
    ensures rest == Remaining(items, cmd)
  {
    var useful: seq<string> := [];
    var i := 0;
    while i < |items|
      invariant 0 <= i <= |items|
      invariant useful == AfterLast(Stream(items[..i]), cmd)
      invariant FirstStop(items, cmd) == FirstStopFrom(items, cmd, i)
      decreases |items| - i
    {
      var received := items[i];
      ItemStep(items, i, cmd);
      if received == Prompt {
        if |useful| > 0 {
          StopAt(items, cmd, i);
          return Response(useful), items[i + 1..];
        }
      } else {
        var lines := Split(TrimPrefix(received, ContinuationPrefix), '\n');
        assert lines == Pieces(received);
        useful := CollectPieces(useful, lines, cmd, Stream(items[..i]));
      }
      i := i + 1;
    }
    NoStop(items, cmd);
    return Incomplete, items;
  }

  /**
    The inner loop of `read_response` over the pieces of one item: prompt
    pieces are skipped, others appended, and an echo empties the collection.
    `before` is the stream read so far, whose echo-free part is `useful`.
  */
  method CollectPieces(useful: seq<string>, lines: seq<string>, cmd: string, ghost before: seq<string>)
    returns (collected: seq<string>)
    requires useful == AfterLast(before, cmd)
    ensures collected == AfterLast(before + DropPrompts(lines), cmd)
  {
    collected := useful;
    var j := 0;
    assert lines[..0] == [] && before + [] == before;
    while j < |lines|
      invariant 0 <= j <= |lines|
      invariant collected == AfterLast(before + DropPrompts(lines[..j]), cmd)
      decreases |lines| - j
    {
      var v := lines[j];
      PieceStep(before, lines, j, cmd);
      if v != Prompt {
        collected := collected + [v];
        if v == cmd {
          collected := [];
        }
      }
      j := j + 1;
    }
    assert lines[..|lines|] == lines;
  }

  /** What the outer loop does with item `i`, in terms of the queue read so far. */
  lemma ItemStep(items: seq<string>, i: nat, cmd: string)
    requires i < |items|
    ensures items[i] == Prompt ==> Stream(items[..i + 1]) == Stream(items[..i])
    ensures items[i] != Prompt ==> Stream(items[..i + 1]) == Stream(items[..i]) + DropPrompts(Pieces(items[i]))
    ensures items[i] != Prompt || AfterLast(Stream(items[..i]), cmd) == [] ==>
      FirstStopFrom(items, cmd, i) == FirstStopFrom(items, cmd, i + 1)
  {
    StreamStep(items, i);
  }

  /** Item `i` is the first stop the loop reaches: the response is what was collected before it. */
  lemma StopAt(items: seq<string>, cmd: string, i: nat)
    requires i < |items| && items[i] == Prompt && AfterLast(Stream(items[..i]), cmd) != []
    requires FirstStop(items, cmd) == FirstStopFrom(items, cmd, i)
    ensures Expected(items, cmd) == Response(AfterLast(Stream(items[..i]), cmd))
    ensures Remaining(items, cmd) == items[i + 1..]
  {
  }

  /** The loop ran through the queue without a stop: nothing is consumed. */
  lemma NoStop(items: seq<string>, cmd: string)
    requires FirstStop(items, cmd) == FirstStopFrom(items, cmd, |items|)
    ensures Expected(items, cmd) == Incomplete && Remaining(items, cmd) == items
  {
  }

  lemma StreamStep(items: seq<string>, i: nat)
    requires i < |items|
    ensures Stream(items[..i + 1]) == Stream(items[..i]) + Contribution(items[i])
  {
    assert items[..i + 1][..i] == items[..i];
  }

  /** What the inner loop does with piece `j`, in terms of the stream read so far. */
  lemma PieceStep(before: seq<string>, lines: seq<string>, j: nat, cmd: string)
    requires j < |lines|
    ensures lines[j] == Prompt ==>
      AfterLast(before + DropPrompts(lines[..j + 1]), cmd) == AfterLast(before + DropPrompts(lines[..j]), cmd)
    ensures lines[j] != Prompt && lines[j] == cmd ==>
      AfterLast(before + DropPrompts(lines[..j + 1]), cmd) == []
    ensures lines[j] != Prompt && lines[j] != cmd ==>
      AfterLast(before + DropPrompts(lines[..j + 1]), cmd) == AfterLast(before + DropPrompts(lines[..j]), cmd) + [lines[j]]
  {
    var seen := before + DropPrompts(lines[..j]);
    DropStep(lines, j);
    if lines[j] != Prompt {
      assert before + DropPrompts(lines[..j + 1]) == seen + [lines[j]];
      AppendStep(seen, lines[j], cmd);
    } else {
      assert before + DropPrompts(lines[..j + 1]) == seen;
    }
  }

  lemma DropStep(ps: seq<string>, j: nat)
    requires j < |ps|
    ensures DropPrompts(ps[..j + 1]) == DropPrompts(ps[..j]) + if ps[j] == Prompt then [] else [ps[j]]
  {
    assert ps[..j + 1][..j] == ps[..j];
  }

  /** Collecting one more piece: an echo empties the collection, anything else is appended. */
  lemma AppendStep(xs: seq<string>, v: string, c: string)
    ensures AfterLast(xs + [v], c) == if v == c then [] else AfterLast(xs, c) + [v]
  {
    assert (xs + [v])[..|xs|] == xs;
  }

  /** `AfterLast` is the suffix after the last `c`: it holds no `c`, and before it stands a `c` or nothing. */
  lemma {:induction false} AfterLastIsSuffix(xs: seq<string>, c: string)
    ensures var r := AfterLast(xs, c);
      && c !in r
      && |r| <= |xs| && xs[|xs| - |r|..] == r
      && (|r| < |xs| ==> xs[|xs| - |r| - 1] == c)
    decreases |xs|
  {
    if xs != [] && xs[|xs| - 1] != c {
      var front := xs[..|xs| - 1];
      AfterLastIsSuffix(front, c);
      var r := AfterLast(front, c);
      assert xs[|xs| - |r| - 1..] == front[|front| - |r|..] + [xs[|xs| - 1]];
      if |r| < |front| {
        assert xs[|xs| - |r| - 2] == front[|front| - |r| - 1];
      }
    }
  }

  /** Conversely, a suffix with those two properties is `AfterLast`. */
  lemma {:induction false} SuffixIsAfterLast(xs: seq<string>, c: string, r: seq<string>)
    requires c !in r && |r| <= |xs| && xs[|xs| - |r|..] == r
    requires |r| < |xs| ==> xs[|xs| - |r| - 1] == c
    ensures AfterLast(xs, c) == r
    decreases |xs|
  {
    if xs != [] {
      var front := xs[..|xs| - 1];
      if r == [] {
        assert xs[|xs| - 1] == c;
      } else {
        assert xs[|xs| - 1] == r[|r| - 1];
        var shorter := r[..|r| - 1];
        assert front[|front| - |shorter|..] == shorter;
        if |shorter| < |front| {
          assert front[|front| - |shorter| - 1] == xs[|xs| - |r| - 1];
        }
        SuffixIsAfterLast(front, c, shorter);
        assert r == shorter + [r[|r| - 1]];
      }
    }
  }

  /** The echo law: whatever precedes an echo of the command is dropped. */
  lemma {:induction false} EchoDiscardsEarlier(xs: seq<string>, c: string, ys: seq<string>)
    ensures AfterLast(xs + [c] + ys, c) == AfterLast(ys, c)
    decreases |ys|
  {
    var all := xs + [c] + ys;
    if ys == [] {
      assert all[|all| - 1] == c;
    } else {
      var front := ys[..|ys| - 1];
      assert all[..|all| - 1] == xs + [c] + front;
      assert all[|all| - 1] == ys[|ys| - 1];
      EchoDiscardsEarlier(xs, c, front);
    }
  }

  /** Without an echo nothing is dropped. */
  lemma {:induction false} NoEchoKeepsAll(xs: seq<string>, c: string)
    requires c !in xs
    ensures AfterLast(xs, c) == xs
  {
    SuffixIsAfterLast(xs, c, xs);
  }

  /**
    A finished response is never empty and never holds the prompt or the
    issued command; it is the stream read so far after its last echo.
  */
  lemma {:induction false} ResponseShape(items: seq<string>, cmd: string)
    requires Expected(items, cmd).Response?
    ensures var lines := Expected(items, cmd).lines;
      && lines != []
      && Prompt !in lines
      && cmd !in lines
      && exists n :: 0 <= n < |items| && items[n] == Prompt && Remaining(items, cmd) == items[n + 1..]
  {
    var n := FirstStop(items, cmd).value;
    var s := Stream(items[..n]);
    AfterLastIsSuffix(s, cmd);
    var lines := AfterLast(s, cmd);
    forall p | p in lines ensures p != Prompt {
      var k :| 0 <= k < |lines| && lines[k] == p;
      assert p == s[|s| - |lines| + k];
    }
  }

  /** A prompt item adds nothing to the stream wherever it stands. */
  lemma {:induction false} StreamPrepend(x: string, xs: seq<string>)
    ensures Stream([x] + xs) == Contribution(x) + Stream(xs)
    decreases |xs|
  {
    var all := [x] + xs;
    if xs != [] {
      var front := xs[..|xs| - 1];
      assert all[..|all| - 1] == [x] + front;
      StreamPrepend(x, front);
    }
  }

  /** Shifting the stop search across a leading prompt. */
  lemma {:induction false} StopsShift(items: seq<string>, cmd: string, from: nat)
    ensures FirstStopFrom([Prompt] + items, cmd, from + 1)
      == match FirstStopFrom(items, cmd, from) case Some(n) => Some(n + 1) case None => None
    decreases |items| - from
  {
    var all := [Prompt] + items;
    if from < |items| {
      assert all[..from + 1] == [Prompt] + items[..from];
      StreamPrepend(Prompt, items[..from]);
      assert IsStop(all, cmd, from + 1) == IsStop(items, cmd, from);
      StopsShift(items, cmd, from + 1);
    }
  }

  /** The stop search across a leading prompt: the same stop, one item later. */
  lemma FirstStopAfterPrompt(items: seq<string>, cmd: string)
    ensures FirstStop([Prompt] + items, cmd)
      == match FirstStop(items, cmd) case Some(n) => Some(n + 1) case None => None
  {
    var all := [Prompt] + items;
    assert !IsStop(all, cmd, 0) by {
      assert all[..0] == [];
    }
    assert FirstStop(all, cmd) == FirstStopFrom(all, cmd, 1);
    StopsShift(items, cmd, 0);
  }

  lemma StreamAfterPrompt(items: seq<string>, n: nat)
    requires n <= |items|
    ensures Stream(([Prompt] + items)[..n + 1]) == Stream(items[..n])
  {
    assert ([Prompt] + items)[..n + 1] == [Prompt] + items[..n];
    StreamPrepend(Prompt, items[..n]);
  }

  /** A prompt that arrives before any content does not end the response. */
  lemma LeadingPromptIsSkipped(items: seq<string>, cmd: string)
    ensures Expected([Prompt] + items, cmd) == Expected(items, cmd)
    ensures Expected(items, cmd).Response? ==> Remaining([Prompt] + items, cmd) == Remaining(items, cmd)
  {
    FirstStopAfterPrompt(items, cmd);
    match FirstStop(items, cmd)
    case Some(n) =>
      PromptBeforeStop(items, cmd, n);
    case None =>
      assert FirstStop([Prompt] + items, cmd) == None;
  }

  /** A leading prompt in front of a queue that stops at `n`: the same response, one item later. */
  lemma PromptBeforeStop(items: seq<string>, cmd: string, n: nat)
    requires FirstStop(items, cmd) == Some(n)
    requires FirstStop([Prompt] + items, cmd) == Some(n + 1)
    ensures Expected([Prompt] + items, cmd) == Expected(items, cmd)
    ensures Remaining([Prompt] + items, cmd) == Remaining(items, cmd)
  {
    var all := [Prompt] + items;
    StreamAfterPrompt(items, n);
    assert all[n + 2..] == items[n + 1..];
  }

  /**
    Prompt-delimited aggregation: content items with no prompt among them,
    then the prompt, give the echo-free part of their stream, and the queue
    keeps what follows the prompt.
  */
  lemma {:induction false} PromptDelimits(content: seq<string>, more: seq<string>, cmd: string)
    requires Prompt !in content
    requires AfterLast(Stream(content), cmd) != []
    ensures Expected(content + [Prompt] + more, cmd) == Response(AfterLast(Stream(content), cmd))
    ensures Remaining(content + [Prompt] + more, cmd) == more
  {
    var items := content + [Prompt] + more;
    var n := |content|;
    assert items[..n] == content;
    assert IsStop(items, cmd, n);
    forall m | 0 <= m < n ensures !IsStop(items, cmd, m) {
      assert items[m] == content[m];
    }
    assert FirstStop(items, cmd) == Some(n) by {
      FirstStopIsLeast(items, cmd, 0, n);
    }
    assert items[n + 1..] == more;
  }

  /** The first stop is the least one. */
  lemma {:induction false} FirstStopIsLeast(items: seq<string>, cmd: string, from: nat, n: nat)
    requires from <= n < |items| && IsStop(items, cmd, n)
    requires forall m :: from <= m < n ==> !IsStop(items, cmd, m)
    ensures FirstStopFrom(items, cmd, from) == Some(n)
    decreases n - from
  {
    if from < n {
      assert !IsStop(items, cmd, from);
      FirstStopIsLeast(items, cmd, from + 1, n);
    }
  }

  /** Whether an item ends the response depends only on that item and those before it. */
  lemma StopIgnoresMore(items: seq<string>, more: seq<string>, cmd: string, m: nat)
    requires m < |items|
    ensures IsStop(items + more, cmd, m) == IsStop(items, cmd, m)
  {
    assert (items + more)[..m] == items[..m];
  }

  /** The stop of a queue is also the stop of any longer queue that begins with it. */
  lemma StopSurvivesMore(items: seq<string>, more: seq<string>, cmd: string, n: nat)
    requires FirstStop(items, cmd) == Some(n)
    ensures FirstStop(items + more, cmd) == Some(n)
  {
    StopIgnoresMore(items, more, cmd, n);
    forall m | 0 <= m < n ensures !IsStop(items + more, cmd, m) {
      StopIgnoresMore(items, more, cmd, m);
    }
    FirstStopIsLeast(items + more, cmd, 0, n);
  }

  /**
    A finished response does not depend on what arrives after it: reading a
    longer queue gives the same response and leaves the extra items queued.
    So an `Incomplete` read, repeated once more lines are queued, returns
    what the blocking read returns on the whole stream.
  */
  lemma MoreInputKeepsResponse(items: seq<string>, more: seq<string>, cmd: string)
    requires Expected(items, cmd).Response?
    ensures Expected(items + more, cmd) == Expected(items, cmd)
    ensures Remaining(items + more, cmd) == Remaining(items, cmd) + more
  {
    var n := FirstStop(items, cmd).value;
    var all := items + more;
    StopSurvivesMore(items, more, cmd, n);
    assert all[..n] == items[..n];
    assert all[n + 1..] == items[n + 1..] + more;
  }
}
