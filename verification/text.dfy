/** Line splitting and ASCII lowercasing: the two pieces of `str` behaviour that
    `search` and `search_case_insensitive` rely on. Text is a sequence of
    characters; for ASCII text a Rust byte offset is a character index. */
module Text {
  import opened Wrappers

  const LF: char := '\n'
  const CR: char := '\r'

  /** `p` is a position at which `q` occurs in `line`. */
  predicate OccursAt(line: string, q: string, p: nat) {
    p + |q| <= |line| && line[p..p + |q|] == q
  }

  /** `line` contains `q` somewhere. */
  predicate Contains(line: string, q: string) {
    exists p: nat | p <= |line| :: OccursAt(line, q, p)
  }

  /** Position of the first line feed in `s`, if any. */
  function FindLineFeed(s: string): (r: Option<nat>)
    ensures r.Some? ==> r.value < |s| && s[r.value] == LF && LF !in s[..r.value]
    ensures r.None? ==> LF !in s
  {
    if |s| == 0 then None
    else if s[0] == LF then Some(0)
    else
      match FindLineFeed(s[1..])
      case None => None
      case Some(i) => Some(i + 1)
  }

  /** Removes one trailing carriage return, as `lines()` does for a "\r\n" ending. */
  function StripCarriageReturn(s: string): (r: string)
    ensures |s| > 0 && s[|s| - 1] == CR ==> r == s[..|s| - 1]
    ensures !(|s| > 0 && s[|s| - 1] == CR) ==> r == s
  {
    if |s| > 0 && s[|s| - 1] == CR then s[..|s| - 1] else s
  }

  /** A line that `lines()` could have produced: no line feed, and no carriage
      return at its end (that one would have been taken as part of "\r\n"). */
  predicate IsLine(l: string) {
    LF !in l && !(|l| > 0 && l[|l| - 1] == CR)
  }

  /** Rust's `str::lines`: split after every "\n", drop the "\n" and a "\r"
      just before it; a final line ending is optional and yields no empty
      last line; the empty text has no lines. */
  function Lines(s: string): (ls: seq<string>)
    decreases |s|
  {
    if |s| == 0 then []
    else
      match FindLineFeed(s)
      case None => [s]
      case Some(i) => [StripCarriageReturn(s[..i])] + Lines(s[i + 1..])
  }

  /** No line contains a line feed. */
  lemma {:induction false} LinesHaveNoLineFeed(s: string)
    ensures forall k :: 0 <= k < |Lines(s)| ==> LF !in Lines(s)[k]
    decreases |s|
  {
    if |s| > 0 {
      match FindLineFeed(s)
      case None =>
      case Some(i) =>
        LinesHaveNoLineFeed(s[i + 1..]);
        assert LF !in s[..i];
    }
  }

  /** Each line followed by a line feed: the text a sequence of lines came from. */
  function Unlines(ls: seq<string>): (s: string) {
    if |ls| == 0 then [] else ls[0] + [LF] + Unlines(ls[1..])
  }

  lemma {:induction false} UnlinesFirstLineFeed(l: string, rest: seq<string>)
    requires LF !in l
    ensures FindLineFeed(Unlines([l] + rest)) == Some(|l|)
  {
    var s := Unlines([l] + rest);
    assert ([l] + rest)[1..] == rest;
    assert s == l + ([LF] + Unlines(rest));
    FindLineFeedOf(l, [LF] + Unlines(rest));
  }

  lemma {:induction false} FindLineFeedOf(l: string, t: string)
    requires LF !in l
    requires |t| > 0 && t[0] == LF
    ensures FindLineFeed(l + t) == Some(|l|)
  {
    if |l| == 0 {
      assert l + t == t;
    } else {
      assert (l + t)[1..] == l[1..] + t;
      FindLineFeedOf(l[1..], t);
    }
  }

  /** Splitting the text of well-formed lines gives the lines back. */
  lemma {:induction false} LinesOfUnlines(ls: seq<string>)
    requires forall k :: 0 <= k < |ls| ==> IsLine(ls[k])
    ensures Lines(Unlines(ls)) == ls
  {
    if |ls| > 0 {
      var s := Unlines(ls);
      assert ls == [ls[0]] + ls[1..];
      UnlinesFirstLineFeed(ls[0], ls[1..]);
      assert s[..|ls[0]|] == ls[0];
      assert s[|ls[0]| + 1..] == Unlines(ls[1..]);
      LinesOfUnlines(ls[1..]);
    }
  }

  /** A line ending in a line feed, followed by more text. */
  lemma LinesCons(l: string, t: string)
    requires IsLine(l)
    ensures Lines(l + "\n" + t) == [l] + Lines(t)
  {
    var s := l + "\n" + t;
    assert s == l + ([LF] + t);
    FindLineFeedOf(l, [LF] + t);
    assert s[..|l|] == l;
    assert s[|l| + 1..] == t;
  }

  /** Complete lines followed by more text. */
  lemma {:induction false} LinesOfUnlinesThen(ls: seq<string>, t: string)
    requires forall k :: 0 <= k < |ls| ==> IsLine(ls[k])
    ensures Lines(Unlines(ls) + t) == ls + Lines(t)
  {
    if |ls| > 0 {
      LinesOfUnlinesThenStep(ls, t);
      LinesOfUnlinesThen(ls[1..], t);
      ConsAppend(ls, Lines(t));
    } else {
      assert Unlines(ls) + t == t;
    }
  }

  lemma ConsAppend<T>(xs: seq<T>, ys: seq<T>)
    requires |xs| > 0
    ensures xs + ys == [xs[0]] + (xs[1..] + ys)
  {
    assert xs == [xs[0]] + xs[1..];
  }

  lemma LinesOfUnlinesThenStep(ls: seq<string>, t: string)
    requires |ls| > 0 && IsLine(ls[0])
    ensures Lines(Unlines(ls) + t) == [ls[0]] + Lines(Unlines(ls[1..]) + t)
  {
    assert Unlines(ls) + t == ls[0] + "\n" + (Unlines(ls[1..]) + t);
    LinesCons(ls[0], Unlines(ls[1..]) + t);
  }

  /** Each line followed by a "\r\n" ending, as text written on Windows. */
  function UnlinesCrLf(ls: seq<string>): (s: string) {
    if |ls| == 0 then [] else ls[0] + [CR, LF] + UnlinesCrLf(ls[1..])
  }

  /** Splitting text with "\r\n" endings gives the lines back: exactly one
      carriage return is dropped with each line feed, so a line may itself
      end in a carriage return and keep it. */
  lemma {:induction false} LinesOfUnlinesCrLf(ls: seq<string>)
    requires forall k :: 0 <= k < |ls| ==> LF !in ls[k]
    ensures Lines(UnlinesCrLf(ls)) == ls
  {
    if |ls| > 0 {
      var l, rest := ls[0], UnlinesCrLf(ls[1..]);
      var s := UnlinesCrLf(ls);
      assert s == (l + [CR]) + ([LF] + rest);
      assert LF !in l + [CR];
      FindLineFeedOf(l + [CR], [LF] + rest);
      assert s[..|l| + 1] == l + [CR];
      assert StripCarriageReturn(l + [CR]) == l;
      assert s[|l| + 2..] == rest;
      LinesOfUnlinesCrLf(ls[1..]);
      assert ls == [l] + ls[1..];
    }
  }

  /** Text without a line feed is one line, kept as it is: a final carriage
      return with no line feed after it is not removed. */
  lemma LinesOfLineFeedFree(s: string)
    requires LF !in s
    ensures Lines(s) == if |s| == 0 then [] else [s]
  {
    if |s| > 0 {
      assert FindLineFeed(s).None?;
    }
  }

  /** `"a\r"` is the line `"a\r"`; `"a\r\n"` is the line `"a"`. */
  lemma CarriageReturnExamples()
    ensures Lines("a\r") == ["a\r"]
    ensures Lines("a\r\n") == ["a"]
  {
    LinesOfLineFeedFree("a\r");
    LinesOfUnlinesCrLf(["a"]);
    assert UnlinesCrLf(["a"]) == "a\r\n";
  }

  lemma NotInSlice(s: string, c: char, i: nat, j: nat)
    requires c !in s
    requires i <= j <= |s|
    ensures c !in s[i..j]
  {
    assert forall d | d in s[i..j] :: d in s;
  }

  /** For text without carriage returns, joining the lines back with line
      feeds restores the text, up to one final line feed that `lines()` treats
      as optional. */
  lemma {:induction false} UnlinesOfLines(s: string)
    requires CR !in s
    ensures Unlines(Lines(s)) == Terminated(s)
    decreases |s|
  {
    if |s| > 0 {
      match FindLineFeed(s)
      case None =>
        assert Unlines([s]) == s + [LF] + Unlines([]);
      case Some(i) =>
        UnlinesOfLinesStep(s, i);
        NotInSlice(s, CR, i + 1, |s|);
        UnlinesOfLines(s[i + 1..]);
        TerminatedAfterLineFeed(s, i);
    }
  }

  lemma UnlinesOfLinesStep(s: string, i: nat)
    requires CR !in s && FindLineFeed(s) == Some(i)
    ensures Unlines(Lines(s)) == s[..i] + [LF] + Unlines(Lines(s[i + 1..]))
  {
    var head, tail := s[..i], s[i + 1..];
    assert Lines(s) == [head] + Lines(tail) by {
      NotInSlice(s, CR, 0, i);
      assert head == [] || head[|head| - 1] in head;
      LinesStep(s, i);
    }
    UnlinesCons(head, Lines(tail));
  }

  /** `s` with a line feed appended unless it is empty or already ends in one. */
  function Terminated(s: string): (t: string)
    ensures s <= t && |t| <= |s| + 1
    ensures |t| > 0 ==> t[|t| - 1] == LF
  {
    if |s| == 0 || s[|s| - 1] == LF then s else s + [LF]
  }

  /** Terminating the text after a line feed terminates the whole text. */
  lemma TerminatedAfterLineFeed(s: string, i: nat)
    requires i < |s| && s[i] == LF
    ensures s[..i] + [LF] + Terminated(s[i + 1..]) == Terminated(s)
  {
    var head, tail := s[..i], s[i + 1..];
    assert s == head + [LF] + tail;
    if |tail| > 0 && tail[|tail| - 1] != LF {
      assert head + [LF] + (tail + [LF]) == s + [LF];
    }
  }

  lemma UnlinesCons(l: string, ls: seq<string>)
    ensures Unlines([l] + ls) == l + [LF] + Unlines(ls)
  {
    assert ([l] + ls)[1..] == ls;
  }

  /** ASCII lowercasing of one character; every other character is kept. */
  function LowerChar(c: char): (d: char) {
    if 'A' <= c <= 'Z' then (c as int + 32) as char else c
  }

  /** ASCII lowercasing, standing in for `to_lowercase`; it keeps lengths, so
      indices into a lowercased line are indices into the original line. */
  function Lower(s: string): (r: string) {
    seq(|s|, i requires 0 <= i < |s| => LowerChar(s[i]))
  }

  /** Lowercasing twice is lowercasing once. */
  lemma LowerIdempotent(s: string)
    ensures Lower(Lower(s)) == Lower(s)
  {
  }

  /** Lowercasing commutes with taking a slice. */
  lemma LowerSlice(s: string, i: nat, j: nat)
    requires i <= j <= |s|
    ensures Lower(s[i..j]) == Lower(s)[i..j]
  {
  }

  /** Lowercasing works piece by piece. */
  lemma LowerAppend(a: string, b: string)
    ensures Lower(a + b) == Lower(a) + Lower(b)
  {
  }

  /** An occurrence of `q` is an occurrence of its lowercase form in the
      lowercased line. */
  lemma OccursAtLower(line: string, q: string, p: nat)
    requires OccursAt(line, q, p)
    ensures OccursAt(Lower(line), Lower(q), p)
  {
    LowerSlice(line, p, p + |q|);
  }

  lemma {:induction false} FindLineFeedLower(s: string)
    ensures FindLineFeed(Lower(s)) == FindLineFeed(s)
    decreases |s|
  {
    if |s| > 0 {
      assert Lower(s)[1..] == Lower(s[1..]);
      FindLineFeedLower(s[1..]);
    }
  }

  lemma StripLower(h: string)
    ensures StripCarriageReturn(Lower(h)) == Lower(StripCarriageReturn(h))
  {
    if |h| > 0 {
      LowerSlice(h, 0, |h| - 1);
    }
  }

  /** One step of `Lines`: the first line ends at the first line feed. */
  lemma LinesStep(s: string, i: nat)
    requires FindLineFeed(s) == Some(i)
    ensures Lines(s) == [StripCarriageReturn(s[..i])] + Lines(s[i + 1..])
  {
  }

  /** Every line lowercased. */
  function LowerEach(ls: seq<string>): (r: seq<string>) {
    seq(|ls|, k requires 0 <= k < |ls| => Lower(ls[k]))
  }

  lemma LowerEachCons(l: string, ls: seq<string>)
    ensures LowerEach([l] + ls) == [Lower(l)] + LowerEach(ls)
  {
  }

  /** Lowercasing never creates or removes a line ending, so the lines of the
      lowercased text are the lowercased lines. */
  lemma {:induction false} LinesOfLower(s: string)
    ensures Lines(Lower(s)) == LowerEach(Lines(s))
    decreases |s|
  {
    if |s| > 0 {
      match FindLineFeed(s)
      case None =>
        FindLineFeedLower(s);
        assert LowerEach([s]) == [Lower(s)];
      case Some(i) =>
        LinesOfLowerStep(s, i);
        LinesOfLower(s[i + 1..]);
    }
  }

  /** Splitting off the first line commutes with lowercasing. */
  lemma LinesOfLowerStep(s: string, i: nat)
    requires FindLineFeed(s) == Some(i)
    ensures Lines(Lower(s)) == [Lower(StripCarriageReturn(s[..i]))] + Lines(Lower(s[i + 1..]))
    ensures LowerEach(Lines(s)) == [Lower(StripCarriageReturn(s[..i]))] + LowerEach(Lines(s[i + 1..]))
  {
    var ls, rs := s[..i], s[i + 1..];
    assert Lines(Lower(s)) == [Lower(StripCarriageReturn(ls))] + Lines(Lower(rs)) by {
      FindLineFeedLower(s);
      assert Lower(s)[..i] == Lower(ls);
      assert Lower(s)[i + 1..] == Lower(rs);
      StripLower(ls);
      LinesStep(Lower(s), i);
    }
    LinesStep(s, i);
    LowerEachCons(StripCarriageReturn(ls), Lines(rs));
  }
}
