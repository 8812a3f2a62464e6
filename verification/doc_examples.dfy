/** The examples in the documentation comments of `search`,
    `search_case_insensitive` and `split_by_matches`, stated as lemmas about
    the model: the texts and expected results are the ones the examples
    assert. */
module DocExamples {
  import opened Wrappers
  import opened Text
  import opened Matching
  import opened Searching
  import opened Highlight
  import opened LibTests

  /** "I'm testing a case sensitive query", written in the pieces its
      scan passes over. */
  const SampleFirst: string := "I'm " + "test" + "ing a case sensi" + "t" + "ive query"

  /** "I'm teSTing a case sensitestive query", written in the pieces its
      split cuts it into. */
  const MixedFirst: string := "I'm " + "teST" + "ing a case sensi" + "test" + "ive query"

  /** "THIS IS A TesTtestTest", the second line of both example texts. */
  const Shouting: string := "THIS IS A " + "TesT" + "test" + "Tes" + "t"

  /** The text of the `search` example: two lines, the second without a
      line ending. */
  const Sample: string := Unlines([SampleFirst]) + Shouting

  /** The text of the `search_case_insensitive` and `split_by_matches`
      examples. */
  const MixedSample: string := Unlines([MixedFirst]) + Shouting

  /** A complete line followed by an unterminated second one. */
  lemma LinesOfTwo(a: string, b: string)
    requires IsLine(a) && LF !in b && |b| > 0
    ensures Lines(Unlines([a]) + b) == [a, b]
  {
    LinesOfUnlinesThen([a], b);
    LinesOfLineFeedFree(b);
  }

  /** The numbered, matched lines of a two-line text. */
  lemma AnnotateTwo(q: string, ls: seq<string>, ignoreCase: bool)
    requires |ls| == 2
    ensures Annotate(q, ls, ignoreCase)
         == [Hit(MatchIndices(Key(ignoreCase, ls[0]), q), 0, ls[0]),
             Hit(MatchIndices(Key(ignoreCase, ls[1]), q), 1, ls[1])]
  {
  }

  /** A match at `p`, then a near miss at `m`, and the pattern's first
      character nowhere else outside the match. */
  lemma MatchThenMiss(line: string, q: string, p: nat, m: nat)
    requires |q| > 0 && OccursAt(line, q, p) && p + |q| <= m < |line| && !OccursAt(line, q, m)
    requires q[0] !in line[..p] && q[0] !in line[p + |q|..m] && q[0] !in line[m + 1..]
    ensures MatchIndices(line, q) == [p]
  {
    calc {
      MatchIndices(line, q);
      { assert line[0..p] == line[..p]; ScanTo(line, q, 0, p); }
      [p] + MatchesFrom(line, q, p + |q|);
      { ScanTo(line, q, p + |q|, m); }
      [p] + MatchesFrom(line, q, m + 1);
      { ScanEnd(line, q, m + 1); }
      [p];
    }
  }

  /** Two separate matches, at `p` and at `r`, and the pattern's first
      character nowhere else outside them. */
  lemma MatchTwiceApart(line: string, q: string, p: nat, r: nat)
    requires |q| > 0 && OccursAt(line, q, p) && OccursAt(line, q, r) && p + |q| <= r
    requires q[0] !in line[..p] && q[0] !in line[p + |q|..r] && q[0] !in line[r + |q|..]
    ensures MatchIndices(line, q) == [p, r]
  {
    assert MatchesFrom(line, q, p + |q|) == [r] by {
      ScanEnd(line, q, r + |q|);
      ScanTo(line, q, p + |q|, r);
    }
    assert line[0..p] == line[..p];
    ScanTo(line, q, 0, p);
  }

  /** Three adjacent matches, at `p`, `r` and `s`, and no match after them. */
  lemma ThriceAt(line: string, q: string, p: nat, r: nat, s: nat)
    requires |q| > 0 && r == p + |q| && s == r + |q| && s + |q| <= |line|
    requires OccursAt(line, q, p) && OccursAt(line, q, r) && OccursAt(line, q, s)
    requires MatchesFrom(line, q, s + |q|) == []
    ensures MatchesFrom(line, q, p) == [p, r, s]
  {
    TwiceAt(line, q, r, s);
    MatchesFromStep(line, q, p);
  }

  /** A near miss at `m`, then three adjacent matches at `p`, `r` and `s`. */
  lemma MissThenThrice(line: string, q: string, m: nat, p: nat, r: nat, s: nat)
    requires |q| > 0 && m < p && r == p + |q| && s == r + |q| && s + |q| <= |line|
    requires !OccursAt(line, q, m) && OccursAt(line, q, p) && OccursAt(line, q, r) && OccursAt(line, q, s)
    requires q[0] !in line[..m] && q[0] !in line[m + 1..p] && q[0] !in line[s + |q|..]
    ensures MatchIndices(line, q) == [p, r, s]
  {
    calc {
      MatchIndices(line, q);
      { MissFirst(line, q, m); }
      MatchesFrom(line, q, m + 1);
      { SkipSlice(line, q, m + 1, p); }
      MatchesFrom(line, q, p);
      { ScanEnd(line, q, s + |q|); ThriceAt(line, q, p, r, s); }
      [p, r, s];
    }
  }

  lemma TestInSampleFirstLine()
    ensures MatchIndices(SampleFirst, "test") == [4]
  {
    var line := SampleFirst;
    assert line[..4] == "I'm " && line[4..8] == "test" && line[8..24] == "ing a case sensi";
    assert line[25..] == "ive query" && line[24..28][1] == 'i';
    MatchThenMiss(line, "test", 4, 24);
  }

  lemma TestInShouting()
    ensures MatchIndices(Shouting, "test") == [14]
  {
    var line := Shouting;
    assert line[..14] == "THIS IS A " + "TesT" && line[14..18] == "test" && line[18..21] == "Tes" && line[22..] == [];
    MatchThenMiss(line, "test", 14, 21);
  }

  /** The `search` example: "test" once in each line; "TesT" and the final
      "Test" differ in case and are not reported. */
  lemma SearchExample()
    ensures Search("test", Sample) == [Hit([4], 0, SampleFirst), Hit([14], 1, Shouting)]
  {
    LinesOfTwo(SampleFirst, Shouting);
    TestInSampleFirstLine();
    TestInShouting();
    AnnotateTwo("test", Lines(Sample), false);
    var hs := Annotate("test", Lines(Sample), false);
    assert hs == [Hit([4], 0, SampleFirst), Hit([14], 1, Shouting)];
    KeepMatchedAll(hs);
  }

  /** Lowercasing a text of five pieces, piece by piece. */
  lemma LowerFive(a: string, b: string, c: string, d: string, e: string)
    ensures Lower(a + b + c + d + e) == Lower(a) + Lower(b) + Lower(c) + Lower(d) + Lower(e)
  {
    LowerAppend(a + b + c + d, e);
    LowerAppend(a + b + c, d);
    LowerAppend(a + b, c);
    LowerAppend(a, b);
  }

  const LoweredMixedFirst: string := "i'm " + "test" + "ing a case sensi" + "test" + "ive query"

  const LoweredShouting: string := "this is a " + "test" + "test" + "tes" + "t"

  lemma LowerMixedFirst()
    ensures Lower(MixedFirst) == LoweredMixedFirst
  {
    LowerFive("I'm ", "teST", "ing a case sensi", "test", "ive query");
    LowerIs("I'm ", "i'm ");
    LowerIs("teST", "test");
    LowerIs("ing a case sensi", "ing a case sensi");
    LowerIs("test", "test");
    LowerIs("ive query", "ive query");
  }

  lemma LowerShouting()
    ensures Lower(Shouting) == LoweredShouting
  {
    LowerFive("THIS IS A ", "TesT", "test", "Tes", "t");
    LowerIs("THIS IS A ", "this is a ");
    LowerIs("TesT", "test");
    LowerIs("test", "test");
    LowerIs("Tes", "tes");
    LowerIs("t", "t");
  }

  lemma TestInMixedFirstLine()
    ensures MatchIndices(Lower(MixedFirst), "test") == [4, 24]
  {
    LowerMixedFirst();
    var line := LoweredMixedFirst;
    assert line[..4] == "i'm " && line[4..8] == "test" && line[8..24] == "ing a case sensi";
    assert line[24..28] == "test" && line[28..] == "ive query";
    MatchTwiceApart(line, "test", 4, 24);
  }

  lemma TestInLoweredShouting()
    ensures MatchIndices(Lower(Shouting), "test") == [10, 14, 18]
  {
    LowerShouting();
    LoweredShoutingPieces();
    MissThenThrice(LoweredShouting, "test", 0, 10, 14, 18);
  }

  lemma LoweredShoutingPieces()
    ensures var line := LoweredShouting;
      && line[..0] == [] && line[0..4][1] == 'h' && line[1..10] == "his is a "
      && line[10..14] == "test" && line[14..18] == "test" && line[18..22] == "tes" + "t" && line[22..] == []
  {
  }

  /** The `search_case_insensitive` example: the lowercased lines hold
      "test" twice and three times; the hits keep the lines as written. */
  lemma SearchCaseInsensitiveExample()
    ensures SearchCaseInsensitive("test", MixedSample) == [Hit([4, 24], 0, MixedFirst), Hit([10, 14, 18], 1, Shouting)]
  {
    LinesOfTwo(MixedFirst, Shouting);
    LowerIs("test", "test");
    TestInMixedFirstLine();
    TestInLoweredShouting();
    AnnotateTwo("test", Lines(MixedSample), true);
    var hs := Annotate("test", Lines(MixedSample), true);
    assert hs == [Hit([4, 24], 0, MixedFirst), Hit([10, 14, 18], 1, Shouting)];
    KeepMatchedAll(hs);
  }

  /** Two separate matches, neither at the start of the line. */
  lemma SplitTwoApart(line: string, p: nat, r: nat, qlen: nat)
    requires 0 < p && p + qlen < r && r + qlen <= |line|
    ensures SplitByMatches(line, [p, r], qlen)
         == Success([Normal(line[..p]), Red(line[p..p + qlen]), Normal(line[p + qlen..r]),
                     Red(line[r..r + qlen]), Normal(line[r + qlen..])])
  {
    var xs: seq<nat> := [p, r];
    var last := [Normal(line[r + qlen..])];
    assert xs[1..] == [r] && [r][1..] == [];
    assert SplitFrom(line, [], qlen, r + qlen) == Success(last);
    assert SplitFrom(line, [r], qlen, p + qlen) == Success(Cut(line, p + qlen, r, qlen) + last);
    var first, second := Cut(line, 0, p, qlen), Cut(line, p + qlen, r, qlen);
    assert SplitFrom(line, xs, qlen, 0) == Success(first + (second + last));
    assert first == [Normal(line[..p]), Red(line[p..p + qlen])] by {
      assert line[0..p] == line[..p];
    }
    assert second == [Normal(line[p + qlen..r]), Red(line[r..r + qlen])];
    assert first + (second + last)
        == [Normal(line[..p]), Red(line[p..p + qlen]), Normal(line[p + qlen..r]),
            Red(line[r..r + qlen]), Normal(line[r + qlen..])];
  }

  /** The `split_by_matches` example: the first hit of the case-insensitive
      example, split at its offsets; each highlighted chunk keeps the case
      the line is written in. */
  lemma SplitExample()
    ensures |SearchCaseInsensitive("test", MixedSample)| > 0
    ensures var h := SearchCaseInsensitive("test", MixedSample)[0];
      SplitByMatches(h.line, h.indices, |"test"|)
        == Success([Normal("I'm "), Red("teST"), Normal("ing a case sensi"), Red("test"), Normal("ive query")])
  {
    SearchCaseInsensitiveExample();
    SplitTwoApart(MixedFirst, 4, 24, 4);
    MixedFirstPieces();
  }

  lemma MixedFirstPieces()
    ensures var line := MixedFirst;
      && line[..4] == "I'm " && line[4..8] == "teST" && line[8..24] == "ing a case sensi"
      && line[24..28] == "test" && line[28..] == "ive query"
  {
  }
}
