/** The unit tests of `src/lib.rs`, stated as lemmas about the model: the
    texts and expected results are the ones the tests assert. */
module LibTests {
  import opened Wrappers
  import opened Text
  import opened Matching
  import opened Searching
  import opened Highlight

  /** The text of the `case_sensitive` and `split_one_match` tests. */
  const Poem: string := Unlines(["Rust:", "safe, fast, productive.", "Pick three."]) + "DUCT TAPE!"

  /** The text of the `case_insensitive` and `split_multiple_matches` tests. */
  const TrustPoem: string := Unlines(["Rust:", "safe, fast, productive.", "Pick three, rustrust."]) + "Trust me."

  /** Three complete lines followed by an unterminated fourth. */
  lemma LinesOfFour(a: string, b: string, c: string, d: string)
    requires IsLine(a) && IsLine(b) && IsLine(c)
    requires LF !in d && |d| > 0
    ensures Lines(Unlines([a, b, c]) + d) == [a, b, c, d]
  {
    LinesOfUnlinesThen([a, b, c], d);
    LinesOfLineFeedFree(d);
  }

  lemma PoemLines()
    ensures Lines(Poem) == ["Rust:", "safe, fast, productive.", "Pick three.", "DUCT TAPE!"]
  {
    LinesOfFour("Rust:", "safe, fast, productive.", "Pick three.", "DUCT TAPE!");
  }

  lemma TrustPoemLines()
    ensures Lines(TrustPoem) == ["Rust:", "safe, fast, productive.", "Pick three, rustrust.", "Trust me."]
  {
    LinesOfFour("Rust:", "safe, fast, productive.", "Pick three, rustrust.", "Trust me.");
  }

  /** The numbered, matched lines of a four-line text. */
  lemma AnnotateFour(q: string, ls: seq<string>, ignoreCase: bool)
    requires |ls| == 4
    ensures Annotate(q, ls, ignoreCase)
         == [Hit(MatchIndices(Key(ignoreCase, ls[0]), q), 0, ls[0]),
             Hit(MatchIndices(Key(ignoreCase, ls[1]), q), 1, ls[1]),
             Hit(MatchIndices(Key(ignoreCase, ls[2]), q), 2, ls[2]),
             Hit(MatchIndices(Key(ignoreCase, ls[3]), q), 3, ls[3])]
  {
  }

  /** The filter over four hits. */
  lemma KeepMatchedFour(hs: seq<Hit>)
    requires |hs| == 4
    ensures KeepMatched(hs)
         == (if |hs[0].indices| > 0 then [hs[0]] else []) + (if |hs[1].indices| > 0 then [hs[1]] else [])
          + (if |hs[2].indices| > 0 then [hs[2]] else []) + (if |hs[3].indices| > 0 then [hs[3]] else [])
  {
    var a := if |hs[0].indices| > 0 then [hs[0]] else [];
    var b := if |hs[1].indices| > 0 then [hs[1]] else [];
    var c := if |hs[2].indices| > 0 then [hs[2]] else [];
    var d := if |hs[3].indices| > 0 then [hs[3]] else [];
    calc {
      KeepMatched(hs);
      { KeepMatchedStep(hs); }
      a + KeepMatched(hs[1..]);
      { KeepMatchedStep(hs[1..]); assert hs[1..][1..] == hs[2..]; }
      a + (b + KeepMatched(hs[2..]));
      { KeepMatchedStep(hs[2..]); assert hs[2..][1..] == hs[3..]; }
      a + (b + (c + KeepMatched(hs[3..])));
      { KeepMatchedStep(hs[3..]); assert hs[3..][1..] == []; }
      a + (b + (c + (d + [])));
      { assert d + [] == d; }
      a + b + c + d;
    }
  }

  /** The scan passes over a stretch without the pattern's first
      character. */
  lemma SkipSlice(line: string, q: string, start: nat, p: nat)
    requires |q| > 0 && start <= p <= |line| && q[0] !in line[start..p]
    ensures MatchesFrom(line, q, start) == MatchesFrom(line, q, p)
  {
    assert forall k :: start <= k < p ==> line[k] == line[start..p][k - start];
    MatchesFromSkips(line, q, start, p);
  }

  /** The scan from `start` when the pattern's first character next
      appears at `p`: a match there is taken, a miss is stepped over. */
  lemma ScanTo(line: string, q: string, start: nat, p: nat)
    requires |q| > 0 && start <= p < |line| && q[0] !in line[start..p]
    ensures OccursAt(line, q, p) ==> MatchesFrom(line, q, start) == [p] + MatchesFrom(line, q, p + |q|)
    ensures !OccursAt(line, q, p) ==> MatchesFrom(line, q, start) == MatchesFrom(line, q, p + 1)
  {
    SkipSlice(line, q, start, p);
    if p + |q| <= |line| {
      MatchesFromStep(line, q, p);
    }
  }

  /** The scan finds nothing once the pattern's first character is gone. */
  lemma ScanEnd(line: string, q: string, start: nat)
    requires |q| > 0 && start <= |line| && q[0] !in line[start..]
    ensures MatchesFrom(line, q, start) == []
  {
    assert line[start..|line|] == line[start..];
    SkipSlice(line, q, start, |line|);
  }

  /** A line in which the pattern's first character appears only where
      the single match starts. */
  lemma MatchesOnceAt(line: string, q: string, p: nat)
    requires |q| > 0 && OccursAt(line, q, p)
    requires q[0] !in line[..p] && q[0] !in line[p + |q|..]
    ensures MatchIndices(line, q) == [p]
  {
    assert line[0..p] == line[..p];
    ScanTo(line, q, 0, p);
    ScanEnd(line, q, p + |q|);
  }

  /** "duct" in the second line of the poem: once, at offset 15. */
  lemma DuctInSecondLine()
    ensures MatchIndices("safe, fast, productive.", "duct") == [15]
  {
    MatchesOnceAt("safe, fast, productive.", "duct", 15);
  }

  /** `case_sensitive`: only the second line contains "duct", at offset 15;
      "DUCT TAPE!" differs in case and is not reported. */
  lemma CaseSensitive()
    ensures Search("duct", Poem) == [Hit([15], 1, "safe, fast, productive.")]
  {
    PoemLines();
    NoFirstCharNoMatches("Rust:", "duct");
    DuctInSecondLine();
    NoFirstCharNoMatches("Pick three.", "duct");
    NoFirstCharNoMatches("DUCT TAPE!", "duct");
    AnnotateFour("duct", Lines(Poem), false);
    var hs := Annotate("duct", Lines(Poem), false);
    assert hs == [Hit([], 0, "Rust:"), Hit([15], 1, "safe, fast, productive."), Hit([], 2, "Pick three."), Hit([], 3, "DUCT TAPE!")];
    KeepMatchedFour(hs);
  }

  /** Lowercasing a text character by character. */
  lemma LowerIs(s: string, t: string)
    requires |s| == |t| && forall i :: 0 <= i < |s| ==> LowerChar(s[i]) == t[i]
    ensures Lower(s) == t
  {
  }

  /** A line in which the pattern's first character appears once, where the
      pattern does not start. */
  lemma MissesOnceAt(line: string, q: string, p: nat)
    requires |q| > 0 && p < |line| && !OccursAt(line, q, p)
    requires q[0] !in line[..p] && q[0] !in line[p + 1..]
    ensures MatchIndices(line, q) == []
  {
    assert line[0..p] == line[..p];
    ScanTo(line, q, 0, p);
    ScanEnd(line, q, p + 1);
  }

  /** Two adjacent matches, at `p` and at `r`, and no match after them. */
  lemma TwiceAt(line: string, q: string, p: nat, r: nat)
    requires |q| > 0 && r == p + |q| && r + |q| <= |line|
    requires OccursAt(line, q, p) && OccursAt(line, q, r)
    requires MatchesFrom(line, q, r + |q|) == []
    ensures MatchesFrom(line, q, p) == [p, r]
  {
    assert MatchesFrom(line, q, r) == [r] by {
      MatchesFromStep(line, q, r);
    }
    MatchesFromStep(line, q, p);
  }

  /** A near miss at `m`, before which the pattern's first character does
      not appear: the scan resumes just after it. */
  lemma MissFirst(line: string, q: string, m: nat)
    requires |q| > 0 && m < |line| && !OccursAt(line, q, m) && q[0] !in line[..m]
    ensures MatchIndices(line, q) == MatchesFrom(line, q, m + 1)
  {
    assert line[0..m] == line[..m];
    ScanTo(line, q, 0, m);
  }

  /** A near miss at `m`, then two adjacent matches, at `p` and at `r`. */
  lemma MissThenTwice(line: string, q: string, m: nat, p: nat, r: nat)
    requires |q| > 0 && m < p && r == p + |q| && r + |q| <= |line|
    requires !OccursAt(line, q, m) && OccursAt(line, q, p) && OccursAt(line, q, r)
    requires q[0] !in line[..m] && q[0] !in line[m + 1..p] && q[0] !in line[r + |q|..]
    ensures MatchIndices(line, q) == [p, r]
  {
    calc {
      MatchIndices(line, q);
      { MissFirst(line, q, m); }
      MatchesFrom(line, q, m + 1);
      { SkipSlice(line, q, m + 1, p); }
      MatchesFrom(line, q, p);
      { ScanEnd(line, q, r + |q|); TwiceAt(line, q, p, r); }
      [p, r];
    }
  }

  lemma RustInFirstLine()
    ensures MatchIndices(Lower("Rust:"), "rust") == [0]
  {
    LowerIs("Rust:", "rust:");
    MatchesOnceAt("rust:", "rust", 0);
  }

  lemma RustInSecondLine()
    ensures MatchIndices(Lower("safe, fast, productive."), "rust") == []
  {
    LowerIs("safe, fast, productive.", "safe, fast, productive.");
    assert "safe, fast, productive."[14] == 'o';
    MissesOnceAt("safe, fast, productive.", "rust", 13);
  }

  /** Two adjacent matches after a near miss: the "r" of "three" starts
      no match, then "rust" at 12 and again at 16. */
  lemma RustInLoweredThirdLine()
    ensures MatchIndices("pick three, rustrust.", "rust") == [12, 16]
  {
    var line := "pick three, rustrust.";
    assert line[8] == 'e';
    assert line[12..16] == "rust" && line[16..20] == "rust";
    MissThenTwice(line, "rust", 7, 12, 16);
  }

  lemma RustInThirdLine()
    ensures MatchIndices(Lower("Pick three, rustrust."), "rust") == [12, 16]
  {
    LowerIs("Pick three, rustrust.", "pick three, rustrust.");
    RustInLoweredThirdLine();
  }

  lemma RustInFourthLine()
    ensures MatchIndices(Lower("Trust me."), "rust") == [1]
  {
    LowerIs("Trust me.", "trust me.");
    MatchesOnceAt("trust me.", "rust", 1);
  }

  /** `case_insensitive`: "rUsT" is found, ignoring case, in "Rust:", twice
      in "rustrust", and inside "Trust"; offsets are those in the lowercased
      line and the hit carries the line as written. */
  lemma CaseInsensitive()
    ensures SearchCaseInsensitive("rUsT", TrustPoem)
         == [Hit([0], 0, "Rust:"), Hit([12, 16], 2, "Pick three, rustrust."), Hit([1], 3, "Trust me.")]
  {
    TrustPoemLines();
    LowerIs("rUsT", "rust");
    RustInFirstLine();
    RustInSecondLine();
    RustInThirdLine();
    RustInFourthLine();
    AnnotateFour("rust", Lines(TrustPoem), true);
    var hs := Annotate("rust", Lines(TrustPoem), true);
    assert hs == [Hit([0], 0, "Rust:"), Hit([], 1, "safe, fast, productive."), Hit([12, 16], 2, "Pick three, rustrust."), Hit([1], 3, "Trust me.")];
    KeepMatchedFour(hs);
  }

  /** `split_one_match`: the first hit of `case_sensitive`, split at its
      offsets with the query's length. */
  lemma SplitOneMatchOfSearch()
    ensures |Search("duct", Poem)| > 0
    ensures var h := Search("duct", Poem)[0];
      SplitByMatches(h.line, h.indices, |"duct"|) == Success([Normal("safe, fast, pro"), Red("duct"), Normal("ive.")])
  {
    CaseSensitive();
    SplitOneMatch();
  }

  /** `split_multiple_matches`: the second hit of `case_insensitive`, split
      at its offsets with the query's length. */
  lemma SplitMultipleMatchesOfSearch()
    ensures |SearchCaseInsensitive("rUsT", TrustPoem)| > 1
    ensures var h := SearchCaseInsensitive("rUsT", TrustPoem)[1];
      SplitByMatches(h.line, h.indices, |"rUsT"|)
        == Success([Normal("Pick three, "), Red("rust"), Red("rust"), Normal(".")])
  {
    CaseInsensitive();
    SplitAdjacentMatches();
  }
}
