/** `search` and `search_case_insensitive`: number the lines of a text from 0,
    find the match offsets of the query in each, and keep the lines that have
    at least one. */
module Searching {
  import opened Text
  import opened Matching

  /** One result tuple `(index_list, (line_number, line))`. */
  datatype Hit = Hit(indices: seq<nat>, lineNumber: nat, line: string)

  /** The text a line is matched against: the line itself, or its lowercase
      form when case is ignored. */
  function Key(ignoreCase: bool, line: string): (k: string) {
    if ignoreCase then Lower(line) else line
  }

  /** The `enumerate().map(..)` step: every line with its number and the
      offsets of `q` in its key. */
  function Annotate(q: string, ls: seq<string>, ignoreCase: bool): (hs: seq<Hit>) {
    seq(|ls|, n requires 0 <= n < |ls| => Hit(MatchIndices(Key(ignoreCase, ls[n]), q), n, ls[n]))
  }

  /** The `filter(|(index_list, _)| !index_list.is_empty())` step. */
  function KeepMatched(hs: seq<Hit>): (kept: seq<Hit>) {
    if |hs| == 0 then []
    else if |hs[0].indices| == 0 then KeepMatched(hs[1..])
    else [hs[0]] + KeepMatched(hs[1..])
  }

  /** The filter's decision on the first hit, then the rest. */
  lemma KeepMatchedStep(hs: seq<Hit>)
    requires |hs| > 0
    ensures KeepMatched(hs) == (if |hs[0].indices| > 0 then [hs[0]] else []) + KeepMatched(hs[1..])
  {
    if |hs[0].indices| == 0 {
      EmptyAppend(KeepMatched(hs[1..]));
    }
  }

  lemma EmptyAppend<T>(s: seq<T>)
    ensures [] + s == s
  {
  }

  /** Nothing is dropped when every entry has offsets. */
  lemma {:induction false} KeepMatchedAll(hs: seq<Hit>)
    requires forall k :: 0 <= k < |hs| ==> |hs[k].indices| > 0
    ensures KeepMatched(hs) == hs
  {
    if |hs| > 0 {
      KeepMatchedAll(hs[1..]);
      assert hs == [hs[0]] + hs[1..];
    }
  }

  /** `search(query, contents)`: case-sensitive search. */
  function Search(q: string, contents: string): (hits: seq<Hit>) {
    KeepMatched(Annotate(q, Lines(contents), false))
  }

  /** `search_case_insensitive(query, contents)`: the offsets are those of the
      lowercased query in the lowercased line, but the hit keeps the line as
      written. */
  function SearchCaseInsensitive(q: string, contents: string): (hits: seq<Hit>) {
    KeepMatched(Annotate(Lower(q), Lines(contents), true))
  }

  /** The hits are numbered consecutively from `first`. */
  predicate NumberedFrom(hs: seq<Hit>, first: nat) {
    forall i :: 0 <= i < |hs| ==> hs[i].lineNumber == first + i
  }

  /** Line numbers strictly increase along the hits. */
  predicate Increasing(hits: seq<Hit>) {
    forall j, k :: 0 <= j < k < |hits| ==> hits[j].lineNumber < hits[k].lineNumber
  }

  /** Line number `n` is among the hits. */
  ghost predicate Reported(hits: seq<Hit>, n: nat) {
    exists k :: 0 <= k < |hits| && hits[k].lineNumber == n
  }

  /** Each entry of `r` is the entry of `hs` with its line number (counted
      from `first`) and has offsets, and the numbers increase along `r`. */
  predicate KeptFrom(r: seq<Hit>, hs: seq<Hit>, first: nat) {
    && (forall k :: 0 <= k < |r| ==>
          && first <= r[k].lineNumber < first + |hs|
          && r[k] == hs[r[k].lineNumber - first]
          && |r[k].indices| > 0)
    && Increasing(r)
  }

  /** The filter keeps, in order, exactly the entries with offsets: each kept
      entry is the input entry with its number, and the numbers increase. */
  lemma {:induction false} KeepMatchedSound(hs: seq<Hit>, first: nat)
    requires NumberedFrom(hs, first)
    ensures KeptFrom(KeepMatched(hs), hs, first)
    decreases |hs|
  {
    if |hs| > 0 {
      var rest := KeepMatched(hs[1..]);
      assert NumberedFrom(hs[1..], first + 1);
      KeepMatchedSound(hs[1..], first + 1);
      KeepMatchedStep(hs);
      KeptFromTail(rest, hs, first);
      if |hs[0].indices| > 0 {
        KeptFromCons(rest, hs, first);
      } else {
        EmptyAppend(rest);
      }
    }
  }

  /** What is kept from the tail is kept from the whole listing. */
  lemma KeptFromTail(rest: seq<Hit>, hs: seq<Hit>, first: nat)
    requires |hs| > 0 && KeptFrom(rest, hs[1..], first + 1)
    ensures KeptFrom(rest, hs, first)
    ensures forall k :: 0 <= k < |rest| ==> first < rest[k].lineNumber
  {
    forall k | 0 <= k < |rest| ensures rest[k] == hs[rest[k].lineNumber - first] {
      assert hs[1..][rest[k].lineNumber - (first + 1)] == hs[rest[k].lineNumber - first];
    }
  }

  /** Keeping the first entry, numbered `first`, before the rest. */
  lemma KeptFromCons(rest: seq<Hit>, hs: seq<Hit>, first: nat)
    requires |hs| > 0 && hs[0].lineNumber == first && |hs[0].indices| > 0
    requires KeptFrom(rest, hs, first)
    requires forall k :: 0 <= k < |rest| ==> first < rest[k].lineNumber
    ensures KeptFrom([hs[0]] + rest, hs, first)
  {
    var r := [hs[0]] + rest;
    assert forall k :: 0 < k < |r| ==> r[k] == rest[k - 1];
  }

  /** The filter drops no entry that has offsets. */
  lemma {:induction false} KeepMatchedComplete(hs: seq<Hit>, first: nat)
    requires NumberedFrom(hs, first)
    ensures forall i :: 0 <= i < |hs| && |hs[i].indices| > 0 ==> Reported(KeepMatched(hs), first + i)
    decreases |hs|
  {
    if |hs| > 0 {
      var rest := KeepMatched(hs[1..]);
      assert NumberedFrom(hs[1..], first + 1);
      KeepMatchedComplete(hs[1..], first + 1);
      var r := KeepMatched(hs);
      forall i | 0 <= i < |hs| && |hs[i].indices| > 0
        ensures Reported(r, first + i)
      {
        if i == 0 {
          assert r[0] == hs[0];
        } else {
          assert hs[1..][i - 1] == hs[i];
          var k :| 0 <= k < |rest| && rest[k].lineNumber == first + 1 + (i - 1);
          if |hs[0].indices| > 0 {
            assert r[k + 1] == rest[k];
          }
        }
      }
    }
  }

  /** What a search over the lines `ls` returns: one hit per line whose key
      contains `q`, in line order, carrying the line number, the line as
      written, and the offsets of `q` in the key. */
  lemma AnnotatedHits(q: string, ls: seq<string>, ignoreCase: bool)
    ensures var hits := KeepMatched(Annotate(q, ls, ignoreCase));
      && (forall k :: 0 <= k < |hits| ==>
            && hits[k].lineNumber < |ls|
            && hits[k].line == ls[hits[k].lineNumber]
            && hits[k].indices == MatchIndices(Key(ignoreCase, hits[k].line), q)
            && Contains(Key(ignoreCase, hits[k].line), q))
      && Increasing(hits)
      && (forall n :: 0 <= n < |ls| ==> (Reported(hits, n) <==> Contains(Key(ignoreCase, ls[n]), q)))
  {
    HitsAreAnnotated(q, ls, ignoreCase);
    HitsReported(q, ls, ignoreCase);
  }

  /** Each hit is an annotated line whose key contains the query. */
  lemma HitsAreAnnotated(q: string, ls: seq<string>, ignoreCase: bool)
    ensures var hits := KeepMatched(Annotate(q, ls, ignoreCase));
      && (forall k :: 0 <= k < |hits| ==>
            && hits[k].lineNumber < |ls|
            && hits[k].line == ls[hits[k].lineNumber]
            && hits[k].indices == MatchIndices(Key(ignoreCase, hits[k].line), q)
            && Contains(Key(ignoreCase, hits[k].line), q))
      && Increasing(hits)
  {
    var hs := Annotate(q, ls, ignoreCase);
    var hits := KeepMatched(hs);
    KeepMatchedSound(hs, 0);
    forall k | 0 <= k < |hits| ensures Contains(Key(ignoreCase, hits[k].line), q) {
      MatchIndicesFound(Key(ignoreCase, hits[k].line), q);
    }
  }

  /** A line is reported exactly when its key contains the query. */
  lemma HitsReported(q: string, ls: seq<string>, ignoreCase: bool)
    ensures var hits := KeepMatched(Annotate(q, ls, ignoreCase));
      forall n :: 0 <= n < |ls| ==> (Reported(hits, n) <==> Contains(Key(ignoreCase, ls[n]), q))
  {
    var hs := Annotate(q, ls, ignoreCase);
    var hits := KeepMatched(hs);
    KeepMatchedSound(hs, 0);
    KeepMatchedComplete(hs, 0);
    forall n | 0 <= n < |ls| ensures Reported(hits, n) <==> Contains(Key(ignoreCase, ls[n]), q) {
      MatchIndicesFound(Key(ignoreCase, ls[n]), q);
      assert hs[n].indices == MatchIndices(Key(ignoreCase, ls[n]), q);
      if Reported(hits, n) {
        var k :| 0 <= k < |hits| && hits[k].lineNumber == n;
        assert hits[k] == hs[n];
      }
    }
  }

  /** `search`: one hit per line of `contents` containing `q`, in line order,
      numbered from 0, with the line as written and the offsets of the
      non-overlapping occurrences of `q` in it, left to right. */
  lemma SearchSpec(q: string, contents: string)
    ensures var ls, hits := Lines(contents), Search(q, contents);
      && (forall k :: 0 <= k < |hits| ==>
            && hits[k].lineNumber < |ls|
            && hits[k].line == ls[hits[k].lineNumber]
            && |hits[k].indices| > 0
            && (forall j :: 0 <= j < |hits[k].indices| ==> OccursAt(hits[k].line, q, hits[k].indices[j]))
            && Disjoint(hits[k].indices, |q|)
            && (|q| > 0 ==> LeftmostFirst(hits[k].line, q, 0, hits[k].indices)))
      && Increasing(hits)
      && (forall n :: 0 <= n < |ls| ==> (Reported(hits, n) <==> Contains(ls[n], q)))
  {
    var ls, hits := Lines(contents), Search(q, contents);
    AnnotatedHits(q, ls, false);
    forall k | 0 <= k < |hits|
      ensures |hits[k].indices| > 0
      ensures forall j :: 0 <= j < |hits[k].indices| ==> OccursAt(hits[k].line, q, hits[k].indices[j])
      ensures Disjoint(hits[k].indices, |q|)
      ensures |q| > 0 ==> LeftmostFirst(hits[k].line, q, 0, hits[k].indices)
    {
      MatchIndicesFound(hits[k].line, q);
      MatchIndicesSound(hits[k].line, q);
      MatchIndicesLeftmost(hits[k].line, q);
    }
  }

  /** `search_case_insensitive`: one hit per line whose lowercase form
      contains the lowercased query, in line order, with the line as written
      and the offsets of the query in the lowercased line. */
  lemma SearchCaseInsensitiveSpec(q: string, contents: string)
    ensures var ls, hits := Lines(contents), SearchCaseInsensitive(q, contents);
      && (forall k :: 0 <= k < |hits| ==>
            && hits[k].lineNumber < |ls|
            && hits[k].line == ls[hits[k].lineNumber]
            && |hits[k].indices| > 0
            && (forall j :: 0 <= j < |hits[k].indices| ==>
                  OccursAt(Lower(hits[k].line), Lower(q), hits[k].indices[j]))
            && Disjoint(hits[k].indices, |q|))
      && Increasing(hits)
      && (forall n :: 0 <= n < |ls| ==> (Reported(hits, n) <==> Contains(Lower(ls[n]), Lower(q))))
  {
    var ls, hits := Lines(contents), SearchCaseInsensitive(q, contents);
    AnnotatedHits(Lower(q), ls, true);
    forall k | 0 <= k < |hits|
      ensures |hits[k].indices| > 0
      ensures forall j :: 0 <= j < |hits[k].indices| ==> OccursAt(Lower(hits[k].line), Lower(q), hits[k].indices[j])
      ensures Disjoint(hits[k].indices, |q|)
    {
      MatchIndicesFound(Lower(hits[k].line), Lower(q));
      MatchIndicesSound(Lower(hits[k].line), Lower(q));
    }
  }

  /** The filter commutes with replacing each line by its lowercase form. */
  lemma {:induction false} KeepMatchedLowered(hs: seq<Hit>, ls: seq<Hit>)
    requires |hs| == |ls|
    requires forall i :: 0 <= i < |hs| ==>
      hs[i].indices == ls[i].indices && hs[i].lineNumber == ls[i].lineNumber && Lower(hs[i].line) == ls[i].line
    ensures |KeepMatched(hs)| == |KeepMatched(ls)|
    ensures forall k :: 0 <= k < |KeepMatched(hs)| ==>
      && KeepMatched(hs)[k].indices == KeepMatched(ls)[k].indices
      && KeepMatched(hs)[k].lineNumber == KeepMatched(ls)[k].lineNumber
      && Lower(KeepMatched(hs)[k].line) == KeepMatched(ls)[k].line
    decreases |hs|
  {
    if |hs| > 0 {
      KeepMatchedLowered(hs[1..], ls[1..]);
      var a, b := KeepMatched(hs[1..]), KeepMatched(ls[1..]);
      if |hs[0].indices| > 0 {
        assert KeepMatched(hs) == [hs[0]] + a;
        assert KeepMatched(ls) == [ls[0]] + b;
      }
    }
  }

  /** `search_case_insensitive(q, c)` reports the same line numbers and the
      same offsets as `search` run with the lowercased query on the
      lowercased text; only the line it carries is the original one. */
  lemma CaseInsensitiveIsSearchOfLowered(q: string, contents: string)
    ensures var ci, lo := SearchCaseInsensitive(q, contents), Search(Lower(q), Lower(contents));
      && |ci| == |lo|
      && forall k :: 0 <= k < |ci| ==>
           && ci[k].indices == lo[k].indices
           && ci[k].lineNumber == lo[k].lineNumber
           && Lower(ci[k].line) == lo[k].line
           && ci[k].lineNumber < |Lines(contents)|
           && ci[k].line == Lines(contents)[ci[k].lineNumber]
  {
    var ls := Lines(contents);
    LinesOfLower(contents);
    var hs, lhs := Annotate(Lower(q), ls, true), Annotate(Lower(q), Lines(Lower(contents)), false);
    assert |hs| == |lhs|;
    forall i | 0 <= i < |hs|
      ensures hs[i].indices == lhs[i].indices && hs[i].lineNumber == lhs[i].lineNumber
      ensures Lower(hs[i].line) == lhs[i].line
    {
      assert Lines(Lower(contents))[i] == Lower(ls[i]);
    }
    KeepMatchedLowered(hs, lhs);
    AnnotatedHits(Lower(q), ls, true);
  }

  /** Every line `search` reports, `search_case_insensitive` reports too. */
  lemma SearchWithinCaseInsensitive(q: string, contents: string, n: nat)
    requires Reported(Search(q, contents), n)
    ensures Reported(SearchCaseInsensitive(q, contents), n)
  {
    var ls := Lines(contents);
    SearchSpec(q, contents);
    SearchCaseInsensitiveSpec(q, contents);
    var k :| 0 <= k < |Search(q, contents)| && Search(q, contents)[k].lineNumber == n;
    assert n < |ls|;
    var p: nat :| p <= |ls[n]| && OccursAt(ls[n], q, p);
    OccursAtLower(ls[n], q, p);
    assert Contains(Lower(ls[n]), Lower(q));
  }

  /** Case-insensitive search does not depend on the case of the query. */
  lemma CaseInsensitiveIgnoresQueryCase(q: string, contents: string)
    ensures SearchCaseInsensitive(q, contents) == SearchCaseInsensitive(Lower(q), contents)
  {
    LowerIdempotent(q);
  }
}
