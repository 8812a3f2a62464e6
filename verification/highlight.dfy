/** `split_by_matches`: cut a line into alternating plain and highlighted
    chunks at the match offsets a search reported. */
module Highlight {
  import opened Wrappers
  import opened Text
  import opened Matching
  import opened Searching

  /** A `ColoredString` as the function builds it: plain (`normal()`) or
      highlighted (`red()`). */
  datatype Chunk = Normal(text: string) | Red(text: string)

  /** Why the function panics. */
  datatype SplitError =
    | IndexBehind(index: nat, consumed: nat)  // `index - real_index` underflows
    | IndexPastLine(index: nat)               // `split_at` beyond the rest of the line
    | MatchPastLine(index: nat)               // `rest[..query_len]` beyond the line

  /** The text of the chunks, concatenated: what the terminal shows. */
  function Flatten(cs: seq<Chunk>): (s: string) {
    if |cs| == 0 then [] else cs[0].text + Flatten(cs[1..])
  }

  /** The texts of the highlighted chunks, in order. */
  function Highlighted(cs: seq<Chunk>): (ms: seq<string>) {
    if |cs| == 0 then []
    else if cs[0].Red? then [cs[0].text] + Highlighted(cs[1..])
    else Highlighted(cs[1..])
  }

  /** The offsets can be cut out of a line of length `len` from position
      `cursor` on: each match starts at or after `cursor`, ends within the
      line, and ends at or before the start of every later one. */
  predicate Placed(len: nat, xs: seq<nat>, qlen: nat, cursor: nat) {
    && (forall k :: 0 <= k < |xs| ==> cursor <= xs[k] && xs[k] + qlen <= len)
    && (forall j, k :: 0 <= j < k < |xs| ==> xs[j] + qlen <= xs[k])
  }

  /** The loop of `split_by_matches` from the state where the first `cursor`
      characters of `line` have been consumed and `xs` remain. */
  function SplitFrom(line: string, xs: seq<nat>, qlen: nat, cursor: nat): (r: Result<seq<Chunk>, SplitError>)
    requires cursor <= |line|
    decreases |xs|
  {
    if |xs| == 0 then Success([Normal(line[cursor..])])
    else
      var i := xs[0];
      if i < cursor then Failure(IndexBehind(i, cursor))
      else if i > |line| then Failure(IndexPastLine(i))
      else if i + qlen > |line| then Failure(MatchPastLine(i))
      else
        match SplitFrom(line, xs[1..], qlen, i + qlen)
        case Failure(e) => Failure(e)
        case Success(rest) => Success(Cut(line, cursor, i, qlen) + rest)
  }

  /** The chunks one loop iteration pushes: the plain text before the match
      (only when it is non-empty) and the highlighted match. */
  function Cut(line: string, cursor: nat, i: nat, qlen: nat): (cs: seq<Chunk>)
    requires cursor <= i && i + qlen <= |line|
  {
    (if i == cursor then [] else [Normal(line[cursor..i])]) + [Red(line[i..i + qlen])]
  }

  lemma CutSpec(line: string, cursor: nat, i: nat, qlen: nat)
    requires cursor <= i && i + qlen <= |line|
    ensures Flatten(Cut(line, cursor, i, qlen)) == line[cursor..i + qlen]
    ensures Highlighted(Cut(line, cursor, i, qlen)) == [line[i..i + qlen]]
  {
    var red := [Red(line[i..i + qlen])];
    assert Flatten(red) == line[i..i + qlen] + Flatten([]);
    assert Highlighted(red) == [line[i..i + qlen]] + Highlighted([]);
    if i != cursor {
      var pre := [Normal(line[cursor..i])];
      assert Flatten(pre) == line[cursor..i] + Flatten([]);
      FlattenAppend(pre, red);
      HighlightedAppend(pre, red);
      assert line[cursor..i + qlen] == line[cursor..i] + line[i..i + qlen];
    } else {
      assert Cut(line, cursor, i, qlen) == red;
    }
  }

  /** `split_by_matches(line, indices, query_len)`. */
  function SplitByMatches(line: string, xs: seq<nat>, qlen: nat): (r: Result<seq<Chunk>, SplitError>) {
    SplitFrom(line, xs, qlen, 0)
  }

  lemma FlattenAppend(a: seq<Chunk>, b: seq<Chunk>)
    ensures Flatten(a + b) == Flatten(a) + Flatten(b)
    decreases |a|
  {
    if |a| > 0 {
      assert (a + b)[1..] == a[1..] + b;
      FlattenAppend(a[1..], b);
    } else {
      assert a + b == b;
    }
  }

  lemma HighlightedAppend(a: seq<Chunk>, b: seq<Chunk>)
    ensures Highlighted(a + b) == Highlighted(a) + Highlighted(b)
    decreases |a|
  {
    if |a| > 0 {
      assert (a + b)[1..] == a[1..] + b;
      HighlightedAppend(a[1..], b);
    } else {
      assert a + b == b;
    }
  }

  /** The shape of the output: it ends with a plain chunk (possibly empty),
      every other plain chunk is non-empty and followed by a highlighted one,
      so adjacent matches give adjacent highlighted chunks and no two plain
      chunks are adjacent. */
  predicate WellShaped(cs: seq<Chunk>) {
    && |cs| > 0
    && cs[|cs| - 1].Normal?
    && (forall k :: 0 <= k < |cs| - 1 && cs[k].Normal? ==> |cs[k].text| > 0)
    && (forall k :: 0 <= k < |cs| - 1 && cs[k].Normal? ==> cs[k + 1].Red?)
  }

  /** Where the highlighted chunks start in the text the chunks spell, when
      that text starts at position `at`. */
  function RedStarts(cs: seq<Chunk>, at: nat): (r: seq<nat>) {
    if |cs| == 0 then []
    else (if cs[0].Red? then [at] else []) + RedStarts(cs[1..], at + |cs[0].text|)
  }

  lemma {:induction false} RedStartsAppend(a: seq<Chunk>, b: seq<Chunk>, at: nat)
    ensures RedStarts(a + b, at) == RedStarts(a, at) + RedStarts(b, at + |Flatten(a)|)
    decreases |a|
  {
    if |a| == 0 {
      assert a + b == b;
    } else {
      assert (a + b)[1..] == a[1..] + b;
      RedStartsAppend(a[1..], b, at + |a[0].text|);
    }
  }

  /** The first step of the loop, when the first offset can be cut out. */
  lemma SplitFromStep(line: string, xs: seq<nat>, qlen: nat, cursor: nat)
    requires cursor <= |line|
    requires |xs| > 0 && cursor <= xs[0] && xs[0] + qlen <= |line|
    ensures SplitFrom(line, xs, qlen, cursor).Success? <==> SplitFrom(line, xs[1..], qlen, xs[0] + qlen).Success?
    ensures SplitFrom(line, xs, qlen, cursor).Success? ==>
      SplitFrom(line, xs, qlen, cursor).value
        == Cut(line, cursor, xs[0], qlen) + SplitFrom(line, xs[1..], qlen, xs[0] + qlen).value
  {
  }

  /** Splitting succeeds exactly when the offsets are placed in order within
      the line; otherwise it stops with the panic the first misplaced offset
      causes. */
  lemma {:induction false} SplitFromSucceeds(line: string, xs: seq<nat>, qlen: nat, cursor: nat)
    requires cursor <= |line|
    ensures SplitFrom(line, xs, qlen, cursor).Success? <==> Placed(|line|, xs, qlen, cursor)
    decreases |xs|
  {
    if |xs| > 0 {
      var i := xs[0];
      if i < cursor || i + qlen > |line| {
        assert !Placed(|line|, xs, qlen, cursor);
      } else {
        var rest := xs[1..];
        assert forall k :: 0 < k < |xs| ==> xs[k] == rest[k - 1];
        SplitFromSucceeds(line, rest, qlen, i + qlen);
        SplitFromStep(line, xs, qlen, cursor);
        assert Placed(|line|, xs, qlen, cursor) <==> Placed(|line|, rest, qlen, i + qlen);
      }
    }
  }

  /** On success the chunks spell the rest of the line. */
  lemma {:induction false} SplitFromRebuilds(line: string, xs: seq<nat>, qlen: nat, cursor: nat, cs: seq<Chunk>)
    requires cursor <= |line|
    requires SplitFrom(line, xs, qlen, cursor) == Success(cs)
    ensures Flatten(cs) == line[cursor..]
    decreases |xs|
  {
    if |xs| == 0 {
      assert Flatten([Normal(line[cursor..])]) == line[cursor..] + Flatten([]);
    } else {
      var i, ys := xs[0], xs[1..];
      SplitFromStep(line, xs, qlen, cursor);
      var tail := SplitFrom(line, ys, qlen, i + qlen).value;
      SplitFromRebuilds(line, ys, qlen, i + qlen, tail);
      CutSpec(line, cursor, i, qlen);
      FlattenAppend(Cut(line, cursor, i, qlen), tail);
      assert line[cursor..] == line[cursor..i + qlen] + line[i + qlen..];
    }
  }

  /** On success there is one highlighted chunk per offset, holding the text
      of the line at that offset. */
  lemma {:induction false} SplitFromHighlights(line: string, xs: seq<nat>, qlen: nat, cursor: nat, cs: seq<Chunk>)
    requires cursor <= |line|
    requires SplitFrom(line, xs, qlen, cursor) == Success(cs)
    ensures |Highlighted(cs)| == |xs|
    ensures forall k :: 0 <= k < |xs| ==> xs[k] + qlen <= |line| && Highlighted(cs)[k] == line[xs[k]..xs[k] + qlen]
    decreases |xs|
  {
    if |xs| > 0 {
      var i, ys := xs[0], xs[1..];
      SplitFromStep(line, xs, qlen, cursor);
      var tail := SplitFrom(line, ys, qlen, i + qlen).value;
      SplitFromHighlights(line, ys, qlen, i + qlen, tail);
      CutSpec(line, cursor, i, qlen);
      HighlightedAppend(Cut(line, cursor, i, qlen), tail);
      var hs, ht := Highlighted(cs), Highlighted(tail);
      assert hs == [line[i..i + qlen]] + ht;
      assert forall k :: 0 < k < |xs| ==> xs[k] == ys[k - 1] && hs[k] == ht[k - 1];
    }
  }

  /** On success the highlighted chunks start exactly at the offsets, in
      the text the chunks spell from the cursor on. */
  lemma {:induction false} SplitFromPlaces(line: string, xs: seq<nat>, qlen: nat, cursor: nat, cs: seq<Chunk>)
    requires cursor <= |line|
    requires SplitFrom(line, xs, qlen, cursor) == Success(cs)
    ensures RedStarts(cs, cursor) == xs
    decreases |xs|
  {
    if |xs| > 0 {
      var i, ys := xs[0], xs[1..];
      SplitFromStep(line, xs, qlen, cursor);
      var tail := SplitFrom(line, ys, qlen, i + qlen).value;
      SplitFromPlaces(line, ys, qlen, i + qlen, tail);
      var head := Cut(line, cursor, i, qlen);
      CutSpec(line, cursor, i, qlen);
      RedStartsAppend(head, tail, cursor);
      if i == cursor {
        assert RedStarts(head, cursor) == [i] + RedStarts([], cursor + qlen);
      } else {
        assert head[1..] == [Red(line[i..i + qlen])];
        assert RedStarts(head[1..], i) == [i] + RedStarts([], i + qlen);
      }
      assert xs == [i] + ys;
    }
  }

  /** On success the output is well shaped and its last, plain chunk holds
      the line after the last match. */
  lemma {:induction false} SplitFromShape(line: string, xs: seq<nat>, qlen: nat, cursor: nat, cs: seq<Chunk>)
    requires cursor <= |line|
    requires SplitFrom(line, xs, qlen, cursor) == Success(cs)
    ensures WellShaped(cs)
    ensures |xs| > 0 ==> xs[|xs| - 1] + qlen <= |line|
    ensures cs[|cs| - 1].text == line[(if |xs| == 0 then cursor else xs[|xs| - 1] + qlen)..]
    decreases |xs|
  {
    if |xs| > 0 {
      var i, ys := xs[0], xs[1..];
      SplitFromStep(line, xs, qlen, cursor);
      var tail := SplitFrom(line, ys, qlen, i + qlen).value;
      SplitFromShape(line, ys, qlen, i + qlen, tail);
      var head := Cut(line, cursor, i, qlen);
      assert cs == head + tail;
      assert head[|head| - 1].Red?;
      assert forall k :: 0 <= k < |head| && head[k].Normal? ==> |head[k].text| > 0 && k + 1 < |head| && head[k + 1].Red?;
      assert forall k :: 0 <= k < |head| ==> cs[k] == head[k];
      assert forall k :: |head| <= k < |cs| ==> cs[k] == tail[k - |head|];
      if |ys| > 0 {
        assert ys[|ys| - 1] == xs[|xs| - 1];
      }
    }
  }

  /** `split_by_matches` from the start of the line: it succeeds exactly when
      the offsets are placed in order within the line; then the chunks
      rebuild the line, there is one highlighted chunk per offset, starting
      at that offset and holding the text there, and the output ends with the
      plain remainder. */
  lemma SplitByMatchesSpec(line: string, xs: seq<nat>, qlen: nat)
    ensures SplitByMatches(line, xs, qlen).Success? <==> Placed(|line|, xs, qlen, 0)
    ensures SplitByMatches(line, xs, qlen).Success? ==>
      var cs := SplitByMatches(line, xs, qlen).value;
      && Flatten(cs) == line
      && |Highlighted(cs)| == |xs|
      && (forall k :: 0 <= k < |xs| ==> xs[k] + qlen <= |line| && Highlighted(cs)[k] == line[xs[k]..xs[k] + qlen])
      && RedStarts(cs, 0) == xs
      && WellShaped(cs)
  {
    SplitFromSucceeds(line, xs, qlen, 0);
    if SplitByMatches(line, xs, qlen).Success? {
      var cs := SplitByMatches(line, xs, qlen).value;
      SplitFromRebuilds(line, xs, qlen, 0, cs);
      SplitFromHighlights(line, xs, qlen, 0, cs);
      SplitFromPlaces(line, xs, qlen, 0, cs);
      SplitFromShape(line, xs, qlen, 0, cs);
    }
  }

  /** Every highlighted chunk is `qlen` characters long. */
  predicate RedWidth(cs: seq<Chunk>, qlen: nat) {
    forall k :: 0 <= k < |cs| && cs[k].Red? ==> |cs[k].text| == qlen
  }

  /** An independent description of a correct split of the rest of `line`
      from `cursor`: the chunks spell it, the highlighted chunks start at the
      offsets and have the query's length, and the output is well shaped. */
  predicate SplitsAt(line: string, cursor: nat, xs: seq<nat>, qlen: nat, cs: seq<Chunk>)
    requires cursor <= |line|
  {
    && Flatten(cs) == line[cursor..]
    && RedStarts(cs, cursor) == xs
    && RedWidth(cs, qlen)
    && WellShaped(cs)
  }

  /** Text that spells a suffix of the line, cut in two. */
  lemma SuffixParts(line: string, c: nat, a: string, b: string)
    requires c <= |line| && a + b == line[c..]
    ensures c + |a| <= |line| && a == line[c..c + |a|] && b == line[c + |a|..]
  {
    assert a == (a + b)[..|a|];
    assert b == (a + b)[|a|..];
  }

  /** A correct split that is a single chunk is the plain rest of the line. */
  lemma SplitsAtLast(line: string, cursor: nat, xs: seq<nat>, qlen: nat, cs: seq<Chunk>)
    requires cursor <= |line|
    requires SplitsAt(line, cursor, xs, qlen, cs) && |cs| == 1
    ensures xs == [] && cs == [Normal(line[cursor..])]
  {
    var c0 := cs[0];
    assert cs == [c0] && c0.Normal?;
    assert RedStarts(cs, cursor) == [] + RedStarts(cs[1..], cursor + |c0.text|);
    assert Flatten(cs) == c0.text + Flatten(cs[1..]);
    assert c0 == Normal(line[cursor..]);
  }

  /** A correct split that opens with a highlighted chunk: the first offset is
      the cursor, and the remaining chunks split the line after the match. */
  lemma SplitsAtRed(line: string, cursor: nat, xs: seq<nat>, qlen: nat, cs: seq<Chunk>)
    requires cursor <= |line|
    requires SplitsAt(line, cursor, xs, qlen, cs) && |cs| > 1 && cs[0].Red?
    ensures |xs| > 0 && xs[0] == cursor && cursor + qlen <= |line|
    ensures SplitsAt(line, cursor + qlen, xs[1..], qlen, cs[1..])
    ensures cs == Cut(line, cursor, cursor, qlen) + cs[1..]
  {
    var c0, rest := cs[0], cs[1..];
    assert cs == [c0] + rest;
    assert |c0.text| == qlen;
    SuffixParts(line, cursor, c0.text, Flatten(rest));
    assert RedStarts(cs, cursor) == [cursor] + RedStarts(rest, cursor + qlen);
    assert cs[|cs| - 1] == rest[|rest| - 1];
    assert forall k :: 0 <= k < |rest| ==> rest[k] == cs[k + 1];
  }

  /** A correct split that opens with plain text: a highlighted chunk follows
      it at the first offset, and the chunks after that split the line after
      the match. */
  lemma SplitsAtNormal(line: string, cursor: nat, xs: seq<nat>, qlen: nat, cs: seq<Chunk>)
    requires cursor <= |line|
    requires SplitsAt(line, cursor, xs, qlen, cs) && |cs| > 1 && cs[0].Normal?
    ensures |xs| > 0 && xs[0] == cursor + |cs[0].text| && cursor < xs[0] && xs[0] + qlen <= |line|
    ensures |cs| > 2 && SplitsAt(line, xs[0] + qlen, xs[1..], qlen, cs[2..])
    ensures cs == Cut(line, cursor, xs[0], qlen) + cs[2..]
  {
    var c0, rest := cs[0], cs[1..];
    var at := cursor + |c0.text|;
    assert cs == [c0] + rest;
    SuffixParts(line, cursor, c0.text, Flatten(rest));
    var c1, more := rest[0], rest[1..];
    assert c1 == cs[1] && c1.Red? && |c0.text| > 0 && |c1.text| == qlen;
    assert rest == [c1] + more;
    assert |more| > 0;
    SuffixParts(line, at, c1.text, Flatten(more));
    assert RedStarts(cs, cursor) == [at] + RedStarts(more, at + qlen) by {
      assert RedStarts(cs, cursor) == RedStarts(rest, at);
      assert RedStarts(rest, at) == [at] + RedStarts(more, at + qlen);
    }
    assert forall k :: 0 <= k < |more| ==> more[k] == cs[k + 2];
    assert more[|more| - 1] == cs[|cs| - 1];
    assert cs == [c0, c1] + more;
  }

  /** A correct split is the one the loop computes: the description above
      determines the output. */
  lemma {:induction false} SplitFromDetermined(line: string, xs: seq<nat>, qlen: nat, cursor: nat, cs: seq<Chunk>)
    requires cursor <= |line|
    requires SplitsAt(line, cursor, xs, qlen, cs)
    ensures SplitFrom(line, xs, qlen, cursor) == Success(cs)
    decreases |cs|
  {
    if |cs| == 1 {
      SplitsAtLast(line, cursor, xs, qlen, cs);
    } else if cs[0].Red? {
      SplitsAtRed(line, cursor, xs, qlen, cs);
      SplitFromDetermined(line, xs[1..], qlen, cursor + qlen, cs[1..]);
      SplitFromStep(line, xs, qlen, cursor);
    } else {
      SplitsAtNormal(line, cursor, xs, qlen, cs);
      SplitFromDetermined(line, xs[1..], qlen, xs[0] + qlen, cs[2..]);
      SplitFromStep(line, xs, qlen, cursor);
    }
  }

  /** The loop's result, when there is one, is a correct split. */
  lemma SplitFromSplitsAt(line: string, xs: seq<nat>, qlen: nat, cursor: nat, cs: seq<Chunk>)
    requires cursor <= |line|
    requires SplitFrom(line, xs, qlen, cursor) == Success(cs)
    ensures SplitsAt(line, cursor, xs, qlen, cs)
  {
    SplitFromRebuilds(line, xs, qlen, cursor, cs);
    SplitFromPlaces(line, xs, qlen, cursor, cs);
    SplitFromShape(line, xs, qlen, cursor, cs);
    SplitFromRedWidth(line, xs, qlen, cursor, cs);
  }

  lemma {:induction false} SplitFromRedWidth(line: string, xs: seq<nat>, qlen: nat, cursor: nat, cs: seq<Chunk>)
    requires cursor <= |line|
    requires SplitFrom(line, xs, qlen, cursor) == Success(cs)
    ensures RedWidth(cs, qlen)
    decreases |xs|
  {
    if |xs| > 0 {
      var i, ys := xs[0], xs[1..];
      SplitFromStep(line, xs, qlen, cursor);
      var tail := SplitFrom(line, ys, qlen, i + qlen).value;
      SplitFromRedWidth(line, ys, qlen, i + qlen, tail);
      var head := Cut(line, cursor, i, qlen);
      assert cs == head + tail;
      assert forall k :: 0 <= k < |head| && head[k].Red? ==> |head[k].text| == qlen;
      assert forall k :: |head| <= k < |cs| ==> cs[k] == tail[k - |head|];
    }
  }

  /** `split_by_matches` returns a list of chunks exactly when that list is a
      correct split of the whole line at the offsets: the output is
      determined by the line, the offsets and the query length. */
  lemma SplitByMatchesCharacterised(line: string, xs: seq<nat>, qlen: nat, cs: seq<Chunk>)
    ensures SplitByMatches(line, xs, qlen) == Success(cs) <==> SplitsAt(line, 0, xs, qlen, cs)
  {
    if SplitByMatches(line, xs, qlen) == Success(cs) {
      SplitFromSplitsAt(line, xs, qlen, 0, cs);
    }
    if SplitsAt(line, 0, xs, qlen, cs) {
      SplitFromDetermined(line, xs, qlen, 0, cs);
    }
  }

  /** Chunks already pushed, followed by what the rest of the loop yields. */
  function Glue(out: seq<Chunk>, r: Result<seq<Chunk>, SplitError>): (glued: Result<seq<Chunk>, SplitError>) {
    match r
    case Success(cs) => Success(out + cs)
    case Failure(e) => Failure(e)
  }

  /** One iteration of the loop, when it does not panic, moves one offset's
      chunks from what remains to what is pushed. */
  lemma GlueStep(line: string, ys: seq<nat>, qlen: nat, consumed: nat, out: seq<Chunk>)
    requires consumed <= |line| && |ys| > 0 && consumed <= ys[0] && ys[0] + qlen <= |line|
    ensures Glue(out, SplitFrom(line, ys, qlen, consumed))
         == Glue(out + Cut(line, consumed, ys[0], qlen), SplitFrom(line, ys[1..], qlen, ys[0] + qlen))
  {
    var rest := SplitFrom(line, ys[1..], qlen, ys[0] + qlen);
    if rest.Success? {
      var head := Cut(line, consumed, ys[0], qlen);
      assert out + (head + rest.value) == (out + head) + rest.value;
    }
  }

  /** The loop of `split_by_matches` as written: a cursor for the consumed
      prefix of the line, an output vector that grows by one or two chunks
      per offset, and a panic where the function would panic. It computes
      exactly `SplitByMatches`, whose properties `SplitByMatchesSpec`
      states. */
  method SplitByMatchesLoop(line: string, xs: seq<nat>, qlen: nat) returns (r: Result<seq<Chunk>, SplitError>)
    ensures r == SplitByMatches(line, xs, qlen)
  {
    var out: seq<Chunk> := [];
    var consumed: nat := 0;
    var panic: Option<SplitError> := None;
    var n := 0;
    assert xs[n..] == xs;
    match SplitByMatches(line, xs, qlen) {
      case Success(cs) => assert out + cs == cs;
      case Failure(_) =>
    }
    while n < |xs|
      invariant 0 <= n <= |xs| && consumed <= |line| && panic.None?
      invariant SplitByMatches(line, xs, qlen) == Glue(out, SplitFrom(line, xs[n..], qlen, consumed))
      decreases |xs| - n
    {
      var index := xs[n];
      var ys := xs[n..];
      assert ys[0] == index && ys[1..] == xs[n + 1..];
      if index < consumed {
        panic := Some(IndexBehind(index, consumed));
        break;
      }
      if index > |line| {
        panic := Some(IndexPastLine(index));
        break;
      }
      var before := out;
      var pre, rest := line[consumed..index], line[index..];
      if |pre| > 0 {
        out := out + [Normal(pre)];
      }
      if qlen > |rest| {
        panic := Some(MatchPastLine(index));
        break;
      }
      out := out + [Red(rest[..qlen])];
      assert out == before + Cut(line, consumed, index, qlen) by {
        assert rest[..qlen] == line[index..index + qlen];
      }
      GlueStep(line, ys, qlen, consumed, before);
      consumed := index + qlen;
      n := n + 1;
    }
    if panic.Some? {
      r := Failure(panic.value);
    } else {
      assert xs[n..] == [];
      out := out + [Normal(line[consumed..])];
      r := Success(out);
    }
  }

  /** `split_by_matches` on a line and the offsets of a search hit rebuilds
      the line, and highlights exactly the query at each offset. */
  lemma SearchHitsRebuild(q: string, contents: string)
    ensures var hits := Search(q, contents);
      forall k :: 0 <= k < |hits| ==>
        var r := SplitByMatches(hits[k].line, hits[k].indices, |q|);
        && r.Success?
        && Flatten(r.value) == hits[k].line
        && |Highlighted(r.value)| == |hits[k].indices|
        && (forall j :: 0 <= j < |Highlighted(r.value)| ==> Highlighted(r.value)[j] == q)
  {
    var hits := Search(q, contents);
    SearchSpec(q, contents);
    forall k | 0 <= k < |hits|
      ensures var r := SplitByMatches(hits[k].line, hits[k].indices, |q|);
        && r.Success?
        && Flatten(r.value) == hits[k].line
        && |Highlighted(r.value)| == |hits[k].indices|
        && (forall j :: 0 <= j < |Highlighted(r.value)| ==> Highlighted(r.value)[j] == q)
    {
      var h := hits[k];
      assert Placed(|h.line|, h.indices, |q|, 0);
      SplitByMatchesSpec(h.line, h.indices, |q|);
    }
  }

  /** Splitting a line at occurrences of the lowered query in the lowered
      line rebuilds the line and highlights the query up to case. */
  lemma LowerMatchesRebuild(line: string, q: string, xs: seq<nat>)
    requires Placed(|line|, xs, |q|, 0)
    requires forall k :: 0 <= k < |xs| ==> OccursAt(Lower(line), Lower(q), xs[k])
    ensures var r := SplitByMatches(line, xs, |q|);
      && r.Success?
      && Flatten(r.value) == line
      && |Highlighted(r.value)| == |xs|
      && (forall j :: 0 <= j < |Highlighted(r.value)| ==> Lower(Highlighted(r.value)[j]) == Lower(q))
  {
    SplitByMatchesSpec(line, xs, |q|);
    var cs := SplitByMatches(line, xs, |q|).value;
    forall j | 0 <= j < |Highlighted(cs)| ensures Lower(Highlighted(cs)[j]) == Lower(q) {
      var i := xs[j];
      assert OccursAt(Lower(line), Lower(q), i);
      LowerSlice(line, i, i + |q|);
    }
  }

  /** The same for `search_case_insensitive`: the line is rebuilt as written,
      and each highlighted chunk is the query up to case. */
  lemma CaseInsensitiveHitsRebuild(q: string, contents: string)
    ensures var hits := SearchCaseInsensitive(q, contents);
      forall k :: 0 <= k < |hits| ==>
        var r := SplitByMatches(hits[k].line, hits[k].indices, |q|);
        && r.Success?
        && Flatten(r.value) == hits[k].line
        && |Highlighted(r.value)| == |hits[k].indices|
        && (forall j :: 0 <= j < |Highlighted(r.value)| ==> Lower(Highlighted(r.value)[j]) == Lower(q))
  {
    var hits := SearchCaseInsensitive(q, contents);
    SearchCaseInsensitiveSpec(q, contents);
    forall k | 0 <= k < |hits|
      ensures var r := SplitByMatches(hits[k].line, hits[k].indices, |q|);
        && r.Success?
        && Flatten(r.value) == hits[k].line
        && |Highlighted(r.value)| == |hits[k].indices|
        && (forall j :: 0 <= j < |Highlighted(r.value)| ==> Lower(Highlighted(r.value)[j]) == Lower(q))
    {
      var h := hits[k];
      assert Placed(|h.line|, h.indices, |q|, 0);
      LowerMatchesRebuild(h.line, q, h.indices);
    }
  }

  /** One match inside a line: plain text around a highlighted chunk. */
  lemma SplitOneMatch()
    ensures SplitByMatches("safe, fast, productive.", [15], 4)
         == Success([Normal("safe, fast, pro"), Red("duct"), Normal("ive.")])
  {
    var line := "safe, fast, productive.";
    assert line[0..15] == "safe, fast, pro";
    assert line[15..19] == "duct";
    assert line[19..] == "ive.";
    assert [15][1..] == [];
    assert SplitFrom(line, [], 4, 19) == Success([Normal("ive.")]);
    assert Cut(line, 0, 15, 4) == [Normal("safe, fast, pro"), Red("duct")];
    assert SplitFrom(line, [15], 4, 0) == Success(Cut(line, 0, 15, 4) + [Normal("ive.")]);
    assert Cut(line, 0, 15, 4) + [Normal("ive.")] == [Normal("safe, fast, pro"), Red("duct"), Normal("ive.")];
  }

  /** Adjacent matches give adjacent highlighted chunks with no empty plain
      chunk between them. */
  lemma SplitAdjacentMatches()
    ensures SplitByMatches("Pick three, rustrust.", [12, 16], 4)
         == Success([Normal("Pick three, "), Red("rust"), Red("rust"), Normal(".")])
  {
    var line := "Pick three, rustrust.";
    assert line[0..12] == "Pick three, ";
    assert line[12..16] == "rust";
    assert line[16..20] == "rust";
    assert line[20..] == ".";
    assert [12, 16][1..] == [16] && [16][1..] == [];
    assert SplitFrom(line, [], 4, 20) == Success([Normal(".")]);
    assert Cut(line, 16, 16, 4) == [Red("rust")];
    assert SplitFrom(line, [16], 4, 16) == Success(Cut(line, 16, 16, 4) + [Normal(".")]);
    assert Cut(line, 16, 16, 4) + [Normal(".")] == [Red("rust"), Normal(".")];
    assert Cut(line, 0, 12, 4) == [Normal("Pick three, "), Red("rust")];
    var xs: seq<nat> := [12, 16];
    assert xs[0] == 12 && xs[1..] == [16];
    assert SplitFrom(line, xs[1..], 4, 16) == Success([Red("rust"), Normal(".")]);
    assert SplitFrom(line, xs, 4, 0) == Success(Cut(line, 0, 12, 4) + [Red("rust"), Normal(".")]);
    assert Cut(line, 0, 12, 4) + [Red("rust"), Normal(".")] == [Normal("Pick three, "), Red("rust"), Red("rust"), Normal(".")];
  }

  /** The three panics: offsets out of order, an offset past the line, and
      a match running past the end of the line. */
  lemma SplitPanics()
    ensures SplitByMatches("Rust", [2, 1], 1) == Failure(IndexBehind(1, 3))
    ensures SplitByMatches("Rust", [5], 1) == Failure(IndexPastLine(5))
    ensures SplitByMatches("Rust", [2], 4) == Failure(MatchPastLine(2))
  {
    var behind: seq<nat> := [2, 1];
    assert behind[1..] == [1];
    assert SplitFrom("Rust", behind[1..], 1, 3) == Failure(IndexBehind(1, 3));
  }
}
