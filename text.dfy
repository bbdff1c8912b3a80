/**
  The few operations of Go's `strings` package that the console protocol
  relies on, with Go's exact semantics: `HasPrefix`, `TrimPrefix` (removes at
  most one occurrence), `Split` on a one-character separator (always at least
  one piece), `Join` and `Replace` with no limit.
*/
module Text {

  /** `strings.HasPrefix(s, p)` */
  predicate HasPrefix(s: string, p: string) {
    p <= s
  }

  /** `s` has the prefix `p` exactly when `s` is at least as long and agrees with `p` character by character. */
  lemma PrefixByCharacters(s: string, p: string)
    ensures HasPrefix(s, p) <==> |p| <= |s| && forall i :: 0 <= i < |p| ==> s[i] == p[i]
  {
  }

  /** `strings.TrimPrefix(s, p)`: one leading `p` is removed, if there is one. */
  function TrimPrefix(s: string, p: string): (r: string)
    ensures HasPrefix(s, p) ==> s == p + r
    ensures !HasPrefix(s, p) ==> r == s
  {
    if HasPrefix(s, p) then s[|p|..] else s
  }

  /** No character of `s` is `c`. */
  predicate Free(s: string, c: char) {
    forall i :: 0 <= i < |s| ==> s[i] != c
  }

  /**
    `strings.Split(s, string(sep))`: the pieces of `s` between occurrences of
    `sep`; `n` separators give `n + 1` pieces, so "" gives [""].
  */
  function Split(s: string, sep: char): (r: seq<string>)
    ensures |r| >= 1
    decreases |s|
  {
    if s == [] then [""]
    else
      var rest := Split(s[1..], sep);
      if s[0] == sep then [""] + rest
      else [[s[0]] + rest[0]] + rest[1..]
  }

  /** `strings.Join(parts, sep)` */
  function Join(parts: seq<string>, sep: string): (r: string)
    decreases |parts|
  {
    if parts == [] then ""
    else if |parts| == 1 then parts[0]
    else parts[0] + sep + Join(parts[1..], sep)
  }

  /** A join opens with its first part and closes with its last. */
  lemma {:induction false} JoinEnds(parts: seq<string>, sep: string)
    requires |parts| >= 1
    ensures parts[0] <= Join(parts, sep)
    ensures var r, last := Join(parts, sep), parts[|parts| - 1];
      |last| <= |r| && r[|r| - |last|..] == last
    decreases |parts|
  {
    if |parts| > 1 {
      JoinEnds(parts[1..], sep);
      var r, tail := Join(parts, sep), Join(parts[1..], sep);
      assert r == parts[0] + sep + tail;
      assert parts[1..][|parts| - 2] == parts[|parts| - 1];
      assert r[|r| - |tail|..] == tail;
    }
  }

  /** `strings.Replace(s, string(from), string(to), -1)`: every `from` becomes `to`. */
  function Replace(s: string, from: char, to: char): (r: string)
    ensures |r| == |s|
    ensures forall i :: 0 <= i < |s| ==> r[i] == if s[i] == from then to else s[i]
    decreases |s|
  {
    if s == [] then ""
    else [if s[0] == from then to else s[0]] + Replace(s[1..], from, to)
  }

  /** Three parts joined: each separator stands between two parts. */
  lemma JoinThree(a: string, b: string, c: string, sep: string)
    ensures Join([a, b, c], sep) == a + sep + b + sep + c
  {
    var parts := [a, b, c];
    assert parts[1..] == [b, c] && parts[1..][1..] == [c];
    assert Join([c], sep) == c;
    assert Join([b, c], sep) == b + sep + c;
  }

  /** No piece produced by `Split` contains the separator. */
  lemma {:induction false} SplitPiecesAreFree(s: string, sep: char)
    ensures forall k :: 0 <= k < |Split(s, sep)| ==> Free(Split(s, sep)[k], sep)
    decreases |s|
  {
    if s != [] {
      SplitPiecesAreFree(s[1..], sep);
    }
  }

  /** Joining the pieces with the separator gives back the original text. */
  lemma {:induction false} JoinSplit(s: string, sep: char)
    ensures Join(Split(s, sep), [sep]) == s
    decreases |s|
  {
    if s != [] {
      var rest := Split(s[1..], sep);
      JoinSplit(s[1..], sep);
      if s[0] == sep {
        assert Split(s, sep) == [""] + rest;
        assert ([""] + rest)[1..] == rest;
        assert Join(Split(s, sep), [sep]) == "" + [sep] + Join(rest, [sep]);
        assert s == [s[0]] + s[1..];
      } else {
        var pieces := [[s[0]] + rest[0]] + rest[1..];
        assert Split(s, sep) == pieces;
        if |rest| == 1 {
          assert Join(pieces, [sep]) == [s[0]] + rest[0];
          assert Join(rest, [sep]) == rest[0];
        } else {
          assert pieces[1..] == rest[1..];
          assert Join(pieces, [sep]) == [s[0]] + rest[0] + [sep] + Join(rest[1..], [sep]);
          assert Join(rest, [sep]) == rest[0] + [sep] + Join(rest[1..], [sep]);
        }
        assert s == [s[0]] + s[1..];
      }
    }
  }

  /** Splitting a join of separator-free pieces gives back exactly those pieces. */
  lemma {:induction false} SplitJoin(parts: seq<string>, sep: char)
    requires |parts| >= 1
    requires forall k :: 0 <= k < |parts| ==> Free(parts[k], sep)
    ensures Split(Join(parts, [sep]), sep) == parts
    decreases |parts|, |parts[0]|
  {
    var head := parts[0];
    if head == [] {
      if |parts| > 1 {
        assert Join(parts, [sep]) == [sep] + Join(parts[1..], [sep]);
        assert ([sep] + Join(parts[1..], [sep]))[1..] == Join(parts[1..], [sep]);
        SplitJoin(parts[1..], sep);
        assert parts == [""] + parts[1..];
      }
    } else {
      var shorter := [head[1..]] + parts[1..];
      assert shorter[1..] == parts[1..];
      assert forall k :: 0 <= k < |shorter| ==> Free(shorter[k], sep) by {
        forall k | 0 <= k < |shorter| ensures Free(shorter[k], sep) {
          if k > 0 { assert shorter[k] == parts[k]; }
        }
      }
      SplitJoin(shorter, sep);
      var joined := Join(parts, [sep]);
      assert joined == [head[0]] + Join(shorter, [sep]) by {
        if |parts| == 1 {
          assert head == [head[0]] + head[1..];
        } else {
          assert joined == head + [sep] + Join(parts[1..], [sep]);
          assert Join(shorter, [sep]) == head[1..] + [sep] + Join(parts[1..], [sep]);
          assert head == [head[0]] + head[1..];
        }
      }
      assert joined[0] == head[0] && head[0] != sep;
      assert joined[1..] == Join(shorter, [sep]);
      assert head == [head[0]] + head[1..];
      assert parts == [head] + parts[1..];
    }
  }
}
