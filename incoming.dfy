/**
  The one regular expression of the console protocol,
  `\[\d\d:\d\d\] (.*) >>> (.*)`, searched for anywhere in a line the way Go's
  `regexp.FindStringSubmatch` does: the match that starts leftmost wins, and
  among those the one a backtracking matcher finds first, so the greedy first
  group runs to the LAST " >>> " it can reach. `.` matches any character but
  '\n' (a '\r' included) and `\d` is an ASCII digit.

  `MatchAt` and `Captures` state what a match is; `Search` and `FindIncoming`
  compute it, and their contracts say that what they compute is that match.
*/
module IncomingPattern {
  import opened Wrappers
  import opened Text

  /** `[HH:MM] `, the fixed head of the pattern. */
  const HeadLength := 8

  /** The literal between the two groups. */
  const Separator := " >>> "

  /** A push message: the two groups of the pattern. */
  datatype Message = Message(sender: string, body: string)

  /** `\d` in Go's syntax: one of the ASCII digits. */
  predicate IsDigit(c: char) {
    '0' <= c <= '9'
  }

  /** `\[\d\d:\d\d\] ` occurs at position `i` of `s`. */
  predicate HeadAt(s: string, i: nat) {
    && i + HeadLength <= |s|
    && s[i] == '[' && IsDigit(s[i + 1]) && IsDigit(s[i + 2]) && s[i + 3] == ':'
    && IsDigit(s[i + 4]) && IsDigit(s[i + 5]) && s[i + 6] == ']' && s[i + 7] == ' '
  }

  /** " >>> " occurs at position `k` of `s`. */
  predicate SeparatorAt(s: string, k: nat)
    ensures SeparatorAt(s, k) <==> k + |Separator| <= |s| && s[k..k + |Separator|] == Separator
  {
    k + 5 <= |s| && s[k] == ' ' && s[k + 1] == '>' && s[k + 2] == '>' && s[k + 3] == '>' && s[k + 4] == ' '
  }

  /**
    The pattern matches at position `i` with its first group `s[i + 8..k]`:
    the head, then a run of non-newline characters, then the separator
    (the second group `(.*)` always matches, possibly empty).
  */
  predicate MatchAt(s: string, i: nat, k: nat) {
    HeadAt(s, i) && i + HeadLength <= k && SeparatorAt(s, k) && Free(s[i + HeadLength..k], '\n')
  }

  /** The match Go reports: leftmost start, then the longest first group. */
  ghost predicate Chosen(s: string, i: nat, k: nat) {
    && MatchAt(s, i, k)
    && (forall i': nat, k': nat :: i' < i ==> !MatchAt(s, i', k'))
    && (forall k': nat :: k < k' ==> !MatchAt(s, i, k'))
  }

  /**
    The groups of the match at (`i`, `k`): the sender is the first group, the
    body is the longest newline-free text after the separator.
  */
  ghost predicate Captures(s: string, i: nat, k: nat, m: Message)
    requires MatchAt(s, i, k)
  {
    var b := k + |Separator|;
    && m.sender == s[i + HeadLength..k]
    && b + |m.body| <= |s| && m.body == s[b..b + |m.body|]
    && Free(m.body, '\n')
    && (b + |m.body| < |s| ==> s[b + |m.body|] == '\n')
  }

  /** The end of the line that contains position `j`: the first '\n' from `j` on, or the end of `s`. */
  function LineEnd(s: string, j: nat): (e: nat)
    requires j <= |s|
    ensures j <= e <= |s|
    ensures Free(s[j..e], '\n')
    ensures e < |s| ==> s[e] == '\n'
    decreases |s| - j
  {
    if j == |s| || s[j] == '\n' then j
    else
      var e := LineEnd(s, j + 1);
      assert s[j..e] == [s[j]] + s[j + 1..e];
      e
  }

  /** The last separator that starts in `[lo, hi]`. */
  function LastSeparator(s: string, lo: nat, hi: int): (r: Option<nat>)
    ensures r.Some? ==> lo <= r.value <= hi && SeparatorAt(s, r.value)
    ensures r.Some? ==> forall k: nat :: r.value < k <= hi ==> !SeparatorAt(s, k)
    ensures r.None? ==> forall k: nat :: lo <= k <= hi ==> !SeparatorAt(s, k)
    decreases hi - lo
  {
    if hi < lo then None
    else if SeparatorAt(s, hi) then Some(hi)
    else LastSeparator(s, lo, hi - 1)
  }

  /** A separator that follows a newline-free run from `lo` lies inside the line of `lo`. */
  lemma SeparatorInsideLine(s: string, lo: nat, k: nat)
    requires lo <= k && SeparatorAt(s, k) && Free(s[lo..k], '\n')
    ensures k + |Separator| <= LineEnd(s, lo)
  {
  }

  /** Every separator inside the line of `lo` ends a newline-free run from `lo`. */
  lemma RunBeforeSeparator(s: string, lo: nat, k: nat)
    requires lo <= k && lo <= |s| && k + |Separator| <= LineEnd(s, lo)
    ensures Free(s[lo..k], '\n')
  {
    var e := LineEnd(s, lo);
    forall j | 0 <= j < k - lo ensures s[lo..k][j] != '\n' {
      assert s[lo..k][j] == s[lo..e][j];
    }
  }

  /** The separators Go's matcher can reach from the head at `from`: those inside its line. */
  function LastInLine(s: string, from: nat): (r: Option<nat>)
    requires from + HeadLength <= |s|
  {
    LastSeparator(s, from + HeadLength, LineEnd(s, from + HeadLength) - |Separator|)
  }

  /** With a head at `from`, the last separator of its line gives the greedy match there. */
  lemma GreedyMatchAt(s: string, from: nat, k: nat)
    requires HeadAt(s, from) && LastInLine(s, from) == Some(k)
    ensures MatchAt(s, from, k)
    ensures forall k': nat :: k < k' ==> !MatchAt(s, from, k')
  {
    var lo := from + HeadLength;
    RunBeforeSeparator(s, lo, k);
    forall k': nat | k < k' && MatchAt(s, from, k') ensures false {
      SeparatorInsideLine(s, lo, k');
    }
  }

  /** With no separator in the line of the head at `from`, nothing matches there. */
  lemma NoMatchAt(s: string, from: nat)
    requires HeadAt(s, from) && LastInLine(s, from).None?
    ensures forall k: nat :: !MatchAt(s, from, k)
  {
    forall k: nat | MatchAt(s, from, k) ensures false {
      SeparatorInsideLine(s, from + HeadLength, k);
    }
  }

  /** The match chosen among those that start at `from` or later. */
  function Search(s: string, from: nat): (r: Option<(nat, nat)>)
    ensures r.Some? ==> from <= r.value.0 && MatchAt(s, r.value.0, r.value.1)
    ensures r.Some? ==> forall i: nat, k: nat :: from <= i < r.value.0 ==> !MatchAt(s, i, k)
    ensures r.Some? ==> forall k: nat :: r.value.1 < k ==> !MatchAt(s, r.value.0, k)
    ensures r.None? ==> forall i: nat, k: nat :: from <= i ==> !MatchAt(s, i, k)
    decreases |s| - from
  {
    if |s| < from + HeadLength then None
    else if !HeadAt(s, from) then Search(s, from + 1)
    else match LastInLine(s, from)
      case Some(k) =>
        GreedyMatchAt(s, from, k);
        Some((from, k))
      case None =>
        NoMatchAt(s, from);
        Search(s, from + 1)
  }

  /**
    `re_incoming.FindStringSubmatch(line)`, reduced to its two groups:
    None exactly when the pattern occurs nowhere in `line`; otherwise the
    groups of the match Go chooses.
  */
  function FindIncoming(line: string): (r: Option<Message>)
    ensures r.None? <==> forall i: nat, k: nat :: !MatchAt(line, i, k)
    ensures r.Some? ==> exists i: nat, k: nat :: Chosen(line, i, k) && Captures(line, i, k, r.value)
  {
    match Search(line, 0)
    case None => None
    case Some((i, k)) =>
      var b := k + |Separator|;
      var m := Message(line[i + HeadLength..k], line[b..LineEnd(line, b)]);
      assert Chosen(line, i, k) && Captures(line, i, k, m);
      Some(m)
  }

  /**
    A line that is one push message: the head, a single-line sender, the
    separator, and a single-line body with no '>' in it. The groups are
    exactly the sender and the body, whatever the body ends with.
  */
  lemma {:induction false} WholeLineMessage(head: string, sender: string, body: string)
    requires |head| == HeadLength && HeadAt(head, 0)
    requires Free(sender, '\n') && Free(body, '\n') && Free(body, '>')
    ensures FindIncoming(head + sender + Separator + body) == Some(Message(sender, body))
  {
    var line := head + sender + Separator + body;
    var p := HeadLength + |sender|;
    var b := p + |Separator|;
    assert line[..HeadLength] == head;
    assert HeadAt(line, 0);
    assert line[HeadLength..p] == sender;
    assert line[p..b] == Separator;
    assert line[b..] == body;
    assert MatchAt(line, 0, p);
    assert forall k: nat :: p < k ==> !SeparatorAt(line, k);
    var m := Message(sender, body);
    assert Captures(line, 0, p, m);
    var r := FindIncoming(line);
    var i: nat, k: nat :| Chosen(line, i, k) && Captures(line, i, k, r.value);
    assert i == 0;
    assert k == p;
    CapturesUnique(line, 0, p, m, r.value);
  }

  /** A line without a '>' holds no separator, so it is never a push message. */
  lemma NoAngleNoMessage(line: string)
    requires Free(line, '>')
    ensures FindIncoming(line).None?
  {
    forall i: nat, k: nat ensures !MatchAt(line, i, k) {
      if k + 1 < |line| {
        assert line[k + 1] != '>';
      }
    }
  }

  /** The groups of a match are determined: `Captures` has one solution. */
  lemma CapturesUnique(s: string, i: nat, k: nat, m1: Message, m2: Message)
    requires MatchAt(s, i, k) && Captures(s, i, k, m1) && Captures(s, i, k, m2)
    ensures m1 == m2
  {
  }

  /** Neither group of a reported message contains a newline. */
  lemma {:induction false} GroupsAreSingleLine(line: string)
    requires FindIncoming(line).Some?
    ensures Free(FindIncoming(line).value.sender, '\n')
    ensures Free(FindIncoming(line).value.body, '\n')
  {
    var i: nat, k: nat :| Chosen(line, i, k) && Captures(line, i, k, FindIncoming(line).value);
  }
}
