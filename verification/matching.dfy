/** `str::match_indices` with a string pattern: the start offsets of the
    non-overlapping occurrences of a pattern, found left to right. */
module Matching {
  import opened Text

  /** Every reported offset is at or after `start` and is an occurrence. */
  predicate AllOccur(line: string, q: string, start: nat, xs: seq<nat>) {
    forall k :: 0 <= k < |xs| ==> start <= xs[k] && OccursAt(line, q, xs[k])
  }

  /** The offsets come in order and the matches they start do not overlap. */
  predicate Disjoint(xs: seq<nat>, len: nat) {
    forall j, k :: 0 <= j < k < |xs| ==> xs[j] + len <= xs[k]
  }

  /** `q` does not occur at or after `start`. */
  ghost predicate NoneFrom(line: string, q: string, start: nat) {
    forall p: nat :: start <= p ==> !OccursAt(line, q, p)
  }

  /** `p` is the first occurrence of `q` at or after `start`. */
  ghost predicate FirstFrom(line: string, q: string, start: nat, p: nat) {
    start <= p && OccursAt(line, q, p) && forall r: nat :: start <= r < p ==> !OccursAt(line, q, r)
  }

  /** The leftmost-first reading of `match_indices`, stated over positions:
      each offset is the first occurrence at or after the end of the previous
      match (the first one at or after `start`), and no occurrence follows the
      end of the last match. */
  ghost predicate LeftmostFirst(line: string, q: string, start: nat, xs: seq<nat>)
    decreases |xs|
  {
    if |xs| == 0 then NoneFrom(line, q, start)
    else FirstFrom(line, q, start, xs[0]) && LeftmostFirst(line, q, xs[0] + |q|, xs[1..])
  }

  /** The scan behind `match_indices`: try `start`; after a match resume at
      its end, otherwise one position further on. */
  function MatchesFrom(line: string, q: string, start: nat): (xs: seq<nat>)
    requires |q| > 0
    decreases |line| - start
  {
    if start + |q| > |line| then []
    else if line[start..start + |q|] == q then [start] + MatchesFrom(line, q, start + |q|)
    else MatchesFrom(line, q, start + 1)
  }

  /** The scan finds exactly the leftmost-first matches. */
  lemma {:induction false} MatchesFromLeftmost(line: string, q: string, start: nat)
    requires |q| > 0
    ensures LeftmostFirst(line, q, start, MatchesFrom(line, q, start))
    decreases |line| - start
  {
    if start + |q| > |line| {
    } else if OccursAt(line, q, start) {
      MatchesFromLeftmost(line, q, start + |q|);
      assert MatchesFrom(line, q, start) == [start] + MatchesFrom(line, q, start + |q|);
    } else {
      MatchesFromLeftmost(line, q, start + 1);
      var xs := MatchesFrom(line, q, start + 1);
      assert MatchesFrom(line, q, start) == xs;
      if |xs| > 0 {
        assert FirstFrom(line, q, start, xs[0]);
      }
    }
  }

  /** A leftmost-first list consists of occurrences, in order, that do not
      overlap. */
  lemma {:induction false} LeftmostSound(line: string, q: string, start: nat, xs: seq<nat>)
    requires LeftmostFirst(line, q, start, xs)
    ensures AllOccur(line, q, start, xs)
    ensures Disjoint(xs, |q|)
    decreases |xs|
  {
    if |xs| > 0 {
      var rest := xs[1..];
      LeftmostSound(line, q, xs[0] + |q|, rest);
      assert forall k :: 0 < k < |xs| ==> xs[k] == rest[k - 1];
    }
  }

  /** A leftmost-first list that still has an element fits after `start`. */
  lemma LeftmostFits(line: string, q: string, start: nat, xs: seq<nat>)
    requires LeftmostFirst(line, q, start, xs)
    ensures |xs| == 0 || start + |q| <= |line|
  {
  }

  /** A leftmost-first list from a position where `q` occurs starts there. */
  lemma LeftmostAtOccurrence(line: string, q: string, start: nat, xs: seq<nat>)
    requires OccursAt(line, q, start)
    requires LeftmostFirst(line, q, start, xs)
    ensures |xs| > 0 && xs[0] == start
    ensures LeftmostFirst(line, q, start + |q|, xs[1..])
  {
  }

  /** A leftmost-first list from a position where `q` does not occur is also
      leftmost-first from the next position. */
  lemma LeftmostPastMiss(line: string, q: string, start: nat, xs: seq<nat>)
    requires !OccursAt(line, q, start)
    requires LeftmostFirst(line, q, start, xs)
    ensures LeftmostFirst(line, q, start + 1, xs)
  {
    if |xs| > 0 {
      assert FirstFrom(line, q, start + 1, xs[0]);
    }
  }

  /** One step of the scan, stated with `OccursAt`. */
  lemma MatchesFromStep(line: string, q: string, start: nat)
    requires |q| > 0
    requires start + |q| <= |line|
    ensures OccursAt(line, q, start) ==>
      MatchesFrom(line, q, start) == [start] + MatchesFrom(line, q, start + |q|)
    ensures !OccursAt(line, q, start) ==>
      MatchesFrom(line, q, start) == MatchesFrom(line, q, start + 1)
  {
  }

  /** The scan passes over positions that do not hold the pattern's first
      character. */
  lemma {:induction false} MatchesFromSkips(line: string, q: string, start: nat, end: nat)
    requires |q| > 0 && start <= end <= |line|
    requires forall p :: start <= p < end ==> line[p] != q[0]
    ensures MatchesFrom(line, q, start) == MatchesFrom(line, q, end)
    decreases end - start
  {
    if start < end {
      if start + |q| <= |line| {
        assert line[start..start + |q|][0] == line[start];
      }
      MatchesFromSkips(line, q, start + 1, end);
    }
  }

  /** A line without the pattern's first character has no matches. */
  lemma NoFirstCharNoMatches(line: string, q: string)
    requires |q| > 0 && q[0] !in line
    ensures MatchIndices(line, q) == []
  {
    MatchesFromSkips(line, q, 0, |line|);
  }

  /** The leftmost-first reading determines the offsets: any list that meets
      it is the one the scan computes. */
  lemma {:induction false} LeftmostUnique(line: string, q: string, start: nat, xs: seq<nat>)
    requires |q| > 0
    requires LeftmostFirst(line, q, start, xs)
    ensures xs == MatchesFrom(line, q, start)
    decreases |line| - start
  {
    if start + |q| > |line| {
      LeftmostFits(line, q, start, xs);
    } else {
      MatchesFromStep(line, q, start);
      if OccursAt(line, q, start) {
        LeftmostAtOccurrence(line, q, start, xs);
        LeftmostUnique(line, q, start + |q|, xs[1..]);
        assert xs == [start] + xs[1..];
      } else {
        LeftmostPastMiss(line, q, start, xs);
        LeftmostUnique(line, q, start + 1, xs);
      }
    }
  }

  /** `line.match_indices(q).map(|(i, _)| i)`. An empty pattern matches at
      every boundary, from 0 up to and including the line's length. */
  function MatchIndices(line: string, q: string): (xs: seq<nat>) {
    if |q| == 0 then seq(|line| + 1, i requires 0 <= i <= |line| => i as nat)
    else MatchesFrom(line, q, 0)
  }

  /** The offsets are occurrences of the pattern, in increasing order, and
      the matches they start do not overlap. */
  lemma MatchIndicesSound(line: string, q: string)
    ensures var xs := MatchIndices(line, q);
      && (forall k :: 0 <= k < |xs| ==> OccursAt(line, q, xs[k]))
      && (forall j, k :: 0 <= j < k < |xs| ==> xs[j] < xs[k] && xs[j] + |q| <= xs[k])
  {
    var xs := MatchIndices(line, q);
    if |q| == 0 {
      forall k | 0 <= k < |xs| ensures OccursAt(line, q, xs[k]) {
        assert line[xs[k]..xs[k]] == q;
      }
    } else {
      MatchesFromLeftmost(line, q, 0);
      LeftmostSound(line, q, 0, xs);
    }
  }

  /** For a non-empty pattern the offsets are the leftmost-first matches; the
      empty pattern matches at each of the line's boundaries. */
  lemma MatchIndicesLeftmost(line: string, q: string)
    ensures |q| > 0 ==> LeftmostFirst(line, q, 0, MatchIndices(line, q))
    ensures |q| == 0 ==> |MatchIndices(line, q)| == |line| + 1
    ensures |q| == 0 ==> forall k :: 0 <= k < |MatchIndices(line, q)| ==> MatchIndices(line, q)[k] == k
  {
    if |q| > 0 {
      MatchesFromLeftmost(line, q, 0);
    }
  }

  /** There is an offset exactly when the line contains the pattern. */
  lemma MatchIndicesFound(line: string, q: string)
    ensures |MatchIndices(line, q)| > 0 <==> Contains(line, q)
  {
    var xs := MatchIndices(line, q);
    MatchIndicesSound(line, q);
    if |q| == 0 {
      assert line[0..0] == q;
      assert OccursAt(line, q, 0);
    } else if Contains(line, q) {
      var p: nat :| p <= |line| && OccursAt(line, q, p);
      OccurrenceCovered(line, q, 0, p);
    }
    assert |xs| > 0 ==> OccursAt(line, q, xs[0]) && xs[0] <= |line|;
  }

  /** For a non-empty pattern, a list of offsets is what `match_indices`
      yields exactly when it is the leftmost-first list of matches. */
  lemma MatchIndicesCharacterised(line: string, q: string, xs: seq<nat>)
    requires |q| > 0
    ensures xs == MatchIndices(line, q) <==> LeftmostFirst(line, q, 0, xs)
  {
    MatchIndicesLeftmost(line, q);
    if LeftmostFirst(line, q, 0, xs) {
      LeftmostUnique(line, q, 0, xs);
    }
  }

  /** Position `p` lies inside one of the matches of length `len` starting
      at the offsets `xs`. */
  ghost predicate Covered(xs: seq<nat>, len: nat, p: nat) {
    exists k :: 0 <= k < |xs| && xs[k] <= p < xs[k] + len
  }

  lemma {:induction false} OccurrenceCovered(line: string, q: string, start: nat, p: nat)
    requires |q| > 0
    requires start <= p && OccursAt(line, q, p)
    ensures Covered(MatchesFrom(line, q, start), |q|, p)
    decreases |line| - start
  {
    var xs := MatchesFrom(line, q, start);
    if OccursAt(line, q, start) {
      var rest := MatchesFrom(line, q, start + |q|);
      assert xs == [start] + rest;
      if p >= start + |q| {
        OccurrenceCovered(line, q, start + |q|, p);
        var k :| 0 <= k < |rest| && rest[k] <= p < rest[k] + |q|;
        assert xs[k + 1] == rest[k];
      } else {
        assert xs[0] <= p < xs[0] + |q|;
      }
    } else {
      assert p != start;
      OccurrenceCovered(line, q, start + 1, p);
    }
  }

  /** No occurrence is lost: every occurrence of a non-empty pattern lies
      inside one of the matches `match_indices` reports (it may overlap an
      earlier reported match instead of being reported itself). */
  lemma MatchIndicesCoverAll(line: string, q: string, p: nat)
    requires |q| > 0
    requires OccursAt(line, q, p)
    ensures Covered(MatchIndices(line, q), |q|, p)
  {
    OccurrenceCovered(line, q, 0, p);
  }
}
