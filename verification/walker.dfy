/** The directory walk of `run_dir` and `run_dir_with_git`, over an in-memory
    tree. The walk lists a directory, and for each entry decides whether to
    skip it, to descend into it, to dispatch a search job for it, or to stop
    with an error. Jobs are recorded as the full paths they would search; the
    thread pool that runs them is not modelled. */
module Walker {
  import opened Wrappers

  /** One entry of a directory listing, as the listing and `fs::metadata`
      report it. */
  datatype Entry =
    | File(name: string)                        // metadata succeeds and is not a directory
    | Dir(name: string, children: seq<Entry>)  // a directory that can be entered and listed
    | Sealed(name: string)                      // a directory that cannot be entered or listed
    | Dangling(name: string)                    // `fs::metadata` fails, e.g. a broken symbolic link
    | Unreadable                                // the listing itself yields an error for this entry

  /** The errors that end a walk early. */
  datatype Fault = CannotOpen(path: string) | NoMetadata(path: string)

  /** The jobs a walk dispatched, in order, and the error it stopped with, if
      any. Jobs dispatched before an error stay dispatched. */
  datatype Outcome = Outcome(jobs: seq<string>, fault: Option<Fault>)

  function Done(jobs: seq<string>): (r: Outcome) { Outcome(jobs, None) }

  function Fail(f: Fault): (r: Outcome) { Outcome([], Some(f)) }

  /** A directory path joined with an entry name, as `Path::join` does for a
      plain name: a separator is added unless the directory is empty or
      already ends in one. The result starts with the directory, ends with
      the name, and has a separator just before the name whenever the
      directory is not empty. */
  function Join(dir: string, name: string): (p: string)
    ensures |dir| + |name| <= |p| <= |dir| + |name| + 1
    ensures dir <= p && p[|p| - |name|..] == name
    ensures |dir| == 0 ==> p == name
    ensures |dir| > 0 ==> |p| > |name| && p[|p| - |name| - 1] == '/'
    ensures |p| == |dir| + |name| + 1 ==> p[|dir|] == '/'
  {
    if |dir| == 0 || dir[|dir| - 1] == '/' then dir + name else dir + "/" + name
  }

  /** Different names in the same directory give different paths. */
  lemma JoinInjective(dir: string, a: string, b: string)
    ensures Join(dir, a) == Join(dir, b) ==> a == b
  {
    if Join(dir, a) == Join(dir, b) {
      var d := |Join(dir, a)| - |a|;
      assert d == |Join(dir, b)| - |b|;
      assert a == Join(dir, a)[d..];
    }
  }

  /** A name the walk treats as hidden: it starts with a dot. */
  predicate Hidden(name: string) { |name| > 0 && name[0] == '.' }

  /** The entry filter: an entry is processed when hidden files are shown or
      its name is not hidden. */
  predicate Visible(name: string, showHidden: bool) { showHidden || !Hidden(name) }

  /** Running two pieces of a walk one after the other: an error in the first
      stops the walk, otherwise the jobs accumulate. */
  function Then(a: Outcome, b: Outcome): (r: Outcome)
  {
    if a.fault.Some? then a else Outcome(a.jobs + b.jobs, b.fault)
  }

  /** The decision for one entry of the directory `dir`, in the order of the
      loop body: the ignore rule first, then the metadata lookup, then the
      entry filter, then directory or file. A plain `run_dir` is this with
      `ignored` false everywhere. */
  function WalkEntry(dir: string, e: Entry, showHidden: bool, ignored: string -> bool): (r: Outcome)
    decreases e
  {
    if e.Unreadable? then Done([])
    else
      var path := Join(dir, e.name);
      if ignored(path) then Done([])
      else if e.Dangling? then Fail(NoMetadata(path))
      else if !Visible(e.name, showHidden) then Done([])
      else if e.File? then Done([path])
      else if e.Sealed? then Fail(CannotOpen(path))
      else WalkEntries(path, e.children, showHidden, ignored)
  }

  /** The loop over a directory listing. */
  function WalkEntries(dir: string, es: seq<Entry>, showHidden: bool, ignored: string -> bool): (r: Outcome)
    decreases es
  {
    if |es| == 0 then Done([])
    else Then(WalkEntry(dir, es[0], showHidden, ignored), WalkEntries(dir, es[1..], showHidden, ignored))
  }

  /** A whole walk started at `root`, the absolute path of the directory
      `top`. The starting directory itself is never filtered; if it cannot be
      entered and listed the walk fails at once. */
  function RunDir(root: string, top: Entry, showHidden: bool, ignored: string -> bool): (r: Outcome)
  {
    match top
    case Dir(_, cs) => WalkEntries(root, cs, showHidden, ignored)
    case _ => Fail(CannotOpen(root))
  }

  /** The ignore rule of a walk outside a repository. */
  const NeverIgnored: string -> bool := (p: string) => false

  // ---------------------------------------------------------------------
  // Composition

  lemma ThenAssociative(a: Outcome, b: Outcome, c: Outcome)
    ensures Then(Then(a, b), c) == Then(a, Then(b, c))
  {
    if a.fault.None? && b.fault.None? {
      assert (a.jobs + b.jobs) + c.jobs == a.jobs + (b.jobs + c.jobs);
    }
  }

  /** Walking two listings one after the other is walking their
      concatenation: an error in the first part ends the walk with the jobs
      dispatched so far. */
  lemma {:induction false} WalkAppend(dir: string, a: seq<Entry>, b: seq<Entry>, showHidden: bool, ignored: string -> bool)
    ensures WalkEntries(dir, a + b, showHidden, ignored)
         == Then(WalkEntries(dir, a, showHidden, ignored), WalkEntries(dir, b, showHidden, ignored))
    decreases |a|
  {
    var wb := WalkEntries(dir, b, showHidden, ignored);
    if |a| == 0 {
      assert a + b == b;
      assert Done([]).jobs + wb.jobs == wb.jobs;
    } else {
      assert (a + b)[1..] == a[1..] + b;
      assert (a + b)[0] == a[0];
      WalkAppend(dir, a[1..], b, showHidden, ignored);
      ThenAssociative(WalkEntry(dir, a[0], showHidden, ignored), WalkEntries(dir, a[1..], showHidden, ignored), wb);
    }
  }

  /** Once an error ends part of a walk, whatever follows it is not visited. */
  lemma FaultStopsWalk(dir: string, a: seq<Entry>, b: seq<Entry>, showHidden: bool, ignored: string -> bool)
    requires WalkEntries(dir, a, showHidden, ignored).fault.Some?
    ensures WalkEntries(dir, a + b, showHidden, ignored) == WalkEntries(dir, a, showHidden, ignored)
  {
    WalkAppend(dir, a, b, showHidden, ignored);
  }

  /** A walk keeps every job it dispatched: walking more entries, whether
      or not they fail, only adds jobs after the earlier ones. */
  lemma EarlierJobsRemain(dir: string, a: seq<Entry>, b: seq<Entry>, showHidden: bool, ignored: string -> bool)
    ensures WalkEntries(dir, a, showHidden, ignored).jobs <= WalkEntries(dir, a + b, showHidden, ignored).jobs
  {
    WalkAppend(dir, a, b, showHidden, ignored);
  }

  // ---------------------------------------------------------------------
  // When a walk fails

  /** The declarative reading of the error cases: some entry of the listing,
      not skipped as unreadable or ignored, has no metadata, or passes the
      filter and is a directory that cannot be opened or whose own listing
      breaks. */
  ghost predicate Breaks(dir: string, es: seq<Entry>, showHidden: bool, ignored: string -> bool)
    decreases es
  {
    exists k :: 0 <= k < |es| && EntryBreaks(dir, es[k], showHidden, ignored)
  }

  ghost predicate EntryBreaks(dir: string, e: Entry, showHidden: bool, ignored: string -> bool)
    decreases e
  {
    && !e.Unreadable?
    && !ignored(Join(dir, e.name))
    && (|| e.Dangling?
        || (Visible(e.name, showHidden) && e.Sealed?)
        || (Visible(e.name, showHidden) && e.Dir? && Breaks(Join(dir, e.name), e.children, showHidden, ignored)))
  }

  /** A walk ends with an error exactly when some entry breaks it. */
  lemma {:induction false} FaultIffBreaks(dir: string, es: seq<Entry>, showHidden: bool, ignored: string -> bool)
    ensures WalkEntries(dir, es, showHidden, ignored).fault.Some? <==> Breaks(dir, es, showHidden, ignored)
    decreases es
  {
    if |es| > 0 {
      EntryFaultIffBreaks(dir, es[0], showHidden, ignored);
      FaultIffBreaks(dir, es[1..], showHidden, ignored);
      if Breaks(dir, es[1..], showHidden, ignored) {
        var k :| 0 <= k < |es[1..]| && EntryBreaks(dir, es[1..][k], showHidden, ignored);
        assert EntryBreaks(dir, es[k + 1], showHidden, ignored);
      }
      if Breaks(dir, es, showHidden, ignored) && !EntryBreaks(dir, es[0], showHidden, ignored) {
        var k :| 0 <= k < |es| && EntryBreaks(dir, es[k], showHidden, ignored);
        assert EntryBreaks(dir, es[1..][k - 1], showHidden, ignored);
      }
    }
  }

  lemma {:induction false} EntryFaultIffBreaks(dir: string, e: Entry, showHidden: bool, ignored: string -> bool)
    ensures WalkEntry(dir, e, showHidden, ignored).fault.Some? <==> EntryBreaks(dir, e, showHidden, ignored)
    decreases e
  {
    if e.Dir? {
      FaultIffBreaks(Join(dir, e.name), e.children, showHidden, ignored);
    }
  }

  // ---------------------------------------------------------------------
  // Which files are dispatched

  /** The declarative reading of the filter: `p` is the path of a file in the
      listing `es` of `dir`, reached only through entries that pass the
      filter and the ignore rule. */
  ghost predicate Reaches(dir: string, es: seq<Entry>, p: string, showHidden: bool, ignored: string -> bool)
    decreases es
  {
    exists k :: 0 <= k < |es| && EntryReaches(dir, es[k], p, showHidden, ignored)
  }

  ghost predicate EntryReaches(dir: string, e: Entry, p: string, showHidden: bool, ignored: string -> bool)
    decreases e
  {
    && (e.File? || e.Dir?)
    && !ignored(Join(dir, e.name))
    && Visible(e.name, showHidden)
    && (e.File? ==> p == Join(dir, e.name))
    && (e.Dir? ==> Reaches(Join(dir, e.name), e.children, p, showHidden, ignored))
  }

  /** Every dispatched job is a reached file. */
  lemma {:induction false} JobsAreReached(dir: string, es: seq<Entry>, p: string, showHidden: bool, ignored: string -> bool)
    requires p in WalkEntries(dir, es, showHidden, ignored).jobs
    ensures Reaches(dir, es, p, showHidden, ignored)
    decreases es
  {
    var h := WalkEntry(dir, es[0], showHidden, ignored);
    if p in h.jobs {
      EntryJobIsReached(dir, es[0], p, showHidden, ignored);
      assert EntryReaches(dir, es[0], p, showHidden, ignored);
    } else {
      JobsAreReached(dir, es[1..], p, showHidden, ignored);
      var k :| 0 <= k < |es[1..]| && EntryReaches(dir, es[1..][k], p, showHidden, ignored);
      assert EntryReaches(dir, es[k + 1], p, showHidden, ignored);
    }
  }

  lemma {:induction false} EntryJobIsReached(dir: string, e: Entry, p: string, showHidden: bool, ignored: string -> bool)
    requires p in WalkEntry(dir, e, showHidden, ignored).jobs
    ensures EntryReaches(dir, e, p, showHidden, ignored)
    decreases e
  {
    if e.Dir? {
      JobsAreReached(Join(dir, e.name), e.children, p, showHidden, ignored);
    }
  }

  /** A walk that ends without an error dispatches every reached file. */
  lemma {:induction false} ReachedAreJobs(dir: string, es: seq<Entry>, p: string, showHidden: bool, ignored: string -> bool)
    requires WalkEntries(dir, es, showHidden, ignored).fault.None?
    requires Reaches(dir, es, p, showHidden, ignored)
    ensures p in WalkEntries(dir, es, showHidden, ignored).jobs
    decreases es
  {
    var k :| 0 <= k < |es| && EntryReaches(dir, es[k], p, showHidden, ignored);
    var h := WalkEntry(dir, es[0], showHidden, ignored);
    var t := WalkEntries(dir, es[1..], showHidden, ignored);
    assert h.fault.None? && t.fault.None?;
    if k == 0 {
      ReachedEntryIsJob(dir, es[0], p, showHidden, ignored);
    } else {
      assert EntryReaches(dir, es[1..][k - 1], p, showHidden, ignored);
      ReachedAreJobs(dir, es[1..], p, showHidden, ignored);
    }
  }

  lemma {:induction false} ReachedEntryIsJob(dir: string, e: Entry, p: string, showHidden: bool, ignored: string -> bool)
    requires WalkEntry(dir, e, showHidden, ignored).fault.None?
    requires EntryReaches(dir, e, p, showHidden, ignored)
    ensures p in WalkEntry(dir, e, showHidden, ignored).jobs
    decreases e
  {
    if e.Dir? {
      ReachedAreJobs(Join(dir, e.name), e.children, p, showHidden, ignored);
    }
  }

  /** The jobs of a walk are exactly the reached files, when the walk ends
      without an error; in any case every job is a reached file. */
  lemma DispatchedIffReached(dir: string, es: seq<Entry>, p: string, showHidden: bool, ignored: string -> bool)
    ensures p in WalkEntries(dir, es, showHidden, ignored).jobs ==> Reaches(dir, es, p, showHidden, ignored)
    ensures WalkEntries(dir, es, showHidden, ignored).fault.None? ==>
              (p in WalkEntries(dir, es, showHidden, ignored).jobs <==> Reaches(dir, es, p, showHidden, ignored))
  {
    if p in WalkEntries(dir, es, showHidden, ignored).jobs {
      JobsAreReached(dir, es, p, showHidden, ignored);
    }
    if WalkEntries(dir, es, showHidden, ignored).fault.None? && Reaches(dir, es, p, showHidden, ignored) {
      ReachedAreJobs(dir, es, p, showHidden, ignored);
    }
  }

  /** A whole walk: a starting point that cannot be listed fails at once
      with nothing dispatched; every job is a file reached from the starting
      directory, and a walk without an error dispatches all of them; the walk
      fails exactly when the start cannot be listed or some entry breaks it. */
  lemma RunDirDispatches(root: string, top: Entry, p: string, showHidden: bool, ignored: string -> bool)
    ensures !top.Dir? ==>
              RunDir(root, top, showHidden, ignored).jobs == [] && RunDir(root, top, showHidden, ignored).fault == Some(CannotOpen(root))
    ensures p in RunDir(root, top, showHidden, ignored).jobs ==>
              top.Dir? && Reaches(root, top.children, p, showHidden, ignored)
    ensures RunDir(root, top, showHidden, ignored).fault.None? ==>
              top.Dir? && (p in RunDir(root, top, showHidden, ignored).jobs <==> Reaches(root, top.children, p, showHidden, ignored))
    ensures RunDir(root, top, showHidden, ignored).fault.Some? <==> !top.Dir? || Breaks(root, top.children, showHidden, ignored)
  {
    if top.Dir? {
      DispatchedIffReached(root, top.children, p, showHidden, ignored);
      FaultIffBreaks(root, top.children, showHidden, ignored);
    }
  }

  // ---------------------------------------------------------------------
  // No file is searched twice

  /** A name as a directory listing yields it: non-empty and without a
      separator. */
  predicate ProperName(n: string) { |n| > 0 && '/' !in n }

  /** A tree as a file system holds it: every name is proper, and the names
      within one directory are distinct. */
  predicate WellNamed(es: seq<Entry>)
    decreases es
  {
    && (forall k :: 0 <= k < |es| ==> WellNamedEntry(es[k]))
    && (forall i, j :: 0 <= i < j < |es| && !es[i].Unreadable? && !es[j].Unreadable? ==> es[i].name != es[j].name)
  }

  predicate WellNamedEntry(e: Entry)
    decreases e
  {
    match e
    case Unreadable => true
    case Dir(n, cs) => ProperName(n) && WellNamed(cs)
    case _ => ProperName(e.name)
  }

  /** `q` is the path `b` or a path below it. */
  predicate Under(q: string, b: string) { b <= q && (|q| == |b| || q[|b|] == '/') }

  /** No path appears twice. */
  predicate Distinct(ps: seq<string>) { forall i, j :: 0 <= i < j < |ps| ==> ps[i] != ps[j] }

  /** A file reached through an entry lies at or below the entry's path. */
  lemma {:induction false} ReachedIsUnder(dir: string, e: Entry, q: string, showHidden: bool, ignored: string -> bool)
    requires WellNamedEntry(e)
    requires EntryReaches(dir, e, q, showHidden, ignored)
    ensures Under(q, Join(dir, e.name))
    decreases e
  {
    if e.Dir? {
      var b := Join(dir, e.name);
      var k :| 0 <= k < |e.children| && EntryReaches(b, e.children[k], q, showHidden, ignored);
      ReachedIsUnder(b, e.children[k], q, showHidden, ignored);
      assert b[|b| - 1] != '/' by {
        assert b[|b| - 1] == e.name[|e.name| - 1];
        assert e.name[|e.name| - 1] in e.name;
      }
      UnderParent(q, b, e.children[k].name);
    }
  }

  /** A path at or below a child of `b` is at or below `b`. */
  lemma UnderParent(q: string, b: string, n: string)
    requires |b| > 0 && b[|b| - 1] != '/'
    requires Under(q, Join(b, n))
    ensures Under(q, b)
  {
    var c := Join(b, n);
    assert c[..|b| + 1] == b + "/";
    assert q[..|b| + 1] == c[..|b| + 1];
  }

  /** Paths at or below two different proper names of one directory are
      different. */
  lemma UnderDifferentNames(dir: string, a: string, b: string, q: string)
    requires ProperName(a) && ProperName(b)
    requires Under(q, Join(dir, a)) && Under(q, Join(dir, b))
    ensures a == b
  {
    var ja, jb := Join(dir, a), Join(dir, b);
    var d := |ja| - |a|;
    assert d == |jb| - |b|;
    if |a| == |b| {
      assert a == ja[d..] == q[d..|ja|] == jb[d..];
    }
  }

  /** In a well-named tree a walk dispatches every file at most once. */
  lemma {:induction false} JobsDistinct(dir: string, es: seq<Entry>, showHidden: bool, ignored: string -> bool)
    requires WellNamed(es)
    ensures Distinct(WalkEntries(dir, es, showHidden, ignored).jobs)
    decreases es
  {
    if |es| > 0 {
      var h := WalkEntry(dir, es[0], showHidden, ignored);
      var t := WalkEntries(dir, es[1..], showHidden, ignored);
      EntryJobsDistinct(dir, es[0], showHidden, ignored);
      assert WellNamed(es[1..]) by {
        assert forall k :: 0 <= k < |es[1..]| ==> es[1..][k] == es[k + 1];
      }
      JobsDistinct(dir, es[1..], showHidden, ignored);
      if h.fault.None? {
        forall x | x in h.jobs
          ensures x !in t.jobs
        {
          if x in t.jobs {
            SeparateEntries(dir, es, x, x, showHidden, ignored);
          }
        }
        DistinctAppend(h.jobs, t.jobs);
      }
    }
  }

  /** Two lists of distinct paths with no path in common. */
  lemma DistinctAppend(a: seq<string>, b: seq<string>)
    requires Distinct(a) && Distinct(b)
    requires forall x :: x in a ==> x !in b
    ensures Distinct(a + b)
  {
    var ab := a + b;
    assert forall i :: |a| <= i < |ab| ==> ab[i] == b[i - |a|];
    assert forall i, j :: 0 <= i < |a| <= j < |ab| ==> ab[i] in a && ab[j] in b;
  }

  /** A job of the first entry is not a job of the entries after it. */
  lemma SeparateEntries(dir: string, es: seq<Entry>, x: string, y: string, showHidden: bool, ignored: string -> bool)
    requires WellNamed(es) && |es| > 0
    requires x in WalkEntry(dir, es[0], showHidden, ignored).jobs
    requires y in WalkEntries(dir, es[1..], showHidden, ignored).jobs
    ensures x != y
  {
    EntryJobIsReached(dir, es[0], x, showHidden, ignored);
    ReachedIsUnder(dir, es[0], x, showHidden, ignored);
    JobsAreReached(dir, es[1..], y, showHidden, ignored);
    var k :| 0 <= k < |es[1..]| && EntryReaches(dir, es[1..][k], y, showHidden, ignored);
    var e := es[k + 1];
    assert EntryReaches(dir, e, y, showHidden, ignored);
    ReachedIsUnder(dir, e, y, showHidden, ignored);
    assert es[0].name != e.name;
    if x == y {
      UnderDifferentNames(dir, es[0].name, e.name, x);
    }
  }

  lemma {:induction false} EntryJobsDistinct(dir: string, e: Entry, showHidden: bool, ignored: string -> bool)
    requires WellNamedEntry(e)
    ensures Distinct(WalkEntry(dir, e, showHidden, ignored).jobs)
    decreases e
  {
    if e.Dir? {
      JobsDistinct(Join(dir, e.name), e.children, showHidden, ignored);
    }
  }

  /** A whole walk of a well-named tree searches no file twice. */
  lemma RunDirDistinct(root: string, top: Entry, showHidden: bool, ignored: string -> bool)
    requires top.Dir? ==> WellNamed(top.children)
    ensures Distinct(RunDir(root, top, showHidden, ignored).jobs)
  {
    if top.Dir? {
      JobsDistinct(root, top.children, showHidden, ignored);
    }
  }

  // ---------------------------------------------------------------------
  // Hidden entries

  /** The listing with every hidden entry removed, at every depth; entries
      whose metadata fails stay, since the lookup happens before the
      filter. */
  function Prune(es: seq<Entry>): (r: seq<Entry>)
    decreases es
  {
    if |es| == 0 then [] else PruneEntry(es[0]) + Prune(es[1..])
  }

  function PruneEntry(e: Entry): (r: seq<Entry>)
    decreases e
  {
    match e
    case Dir(n, cs) => if Hidden(n) then [] else [Dir(n, Prune(cs))]
    case File(n) => if Hidden(n) then [] else [e]
    case Sealed(n) => if Hidden(n) then [] else [e]
    case Dangling(_) => [e]
    case Unreadable => [e]
  }

  /** No file, directory or unlistable directory has a hidden name, at any
      depth. */
  predicate NoHiddenAnywhere(es: seq<Entry>)
    decreases es
  {
    forall k :: 0 <= k < |es| ==> NoHiddenEntry(es[k])
  }

  predicate NoHiddenEntry(e: Entry)
    decreases e
  {
    match e
    case Dir(n, cs) => !Hidden(n) && NoHiddenAnywhere(cs)
    case File(n) => !Hidden(n)
    case Sealed(n) => !Hidden(n)
    case _ => true
  }

  /** No entry with a hidden name survives pruning, at any depth, except
      those whose metadata fails. */
  lemma {:induction false} PruneLeavesNoHidden(es: seq<Entry>)
    ensures forall k :: 0 <= k < |Prune(es)| && !Prune(es)[k].Unreadable? && !Prune(es)[k].Dangling? ==>
              !Hidden(Prune(es)[k].name)
    ensures NoHiddenAnywhere(Prune(es))
    decreases es
  {
    if |es| > 0 {
      PruneEntryLeavesNoHidden(es[0]);
      PruneLeavesNoHidden(es[1..]);
      var h, t := PruneEntry(es[0]), Prune(es[1..]);
      assert Prune(es) == h + t;
      assert forall k :: |h| <= k < |h + t| ==> (h + t)[k] == t[k - |h|];
    }
  }

  lemma {:induction false} PruneEntryLeavesNoHidden(e: Entry)
    ensures NoHiddenAnywhere(PruneEntry(e))
    decreases e
  {
    if e.Dir? && !Hidden(e.name) {
      PruneLeavesNoHidden(e.children);
      assert PruneEntry(e) == [Dir(e.name, Prune(e.children))];
    }
  }

  /** Hiding hidden files is walking the pruned tree with hidden files shown:
      a hidden directory is never entered and a hidden file never
      dispatched. */
  lemma {:induction false} HiddenIsPruned(dir: string, es: seq<Entry>, ignored: string -> bool)
    ensures WalkEntries(dir, es, false, ignored) == WalkEntries(dir, Prune(es), true, ignored)
    decreases es
  {
    if |es| > 0 {
      HiddenEntryIsPruned(dir, es[0], ignored);
      HiddenIsPruned(dir, es[1..], ignored);
      WalkAppend(dir, PruneEntry(es[0]), Prune(es[1..]), true, ignored);
    }
  }

  lemma {:induction false} HiddenEntryIsPruned(dir: string, e: Entry, ignored: string -> bool)
    ensures WalkEntry(dir, e, false, ignored) == WalkEntries(dir, PruneEntry(e), true, ignored)
    decreases e
  {
    var pe := PruneEntry(e);
    if |pe| == 1 {
      var w := WalkEntry(dir, pe[0], true, ignored);
      assert WalkEntries(dir, pe, true, ignored) == Then(w, Done([]));
      assert w.jobs + [] == w.jobs;
      if e.Dir? {
        HiddenIsPruned(Join(dir, e.name), e.children, ignored);
      }
    }
  }

  /** A hidden file or directory is skipped when hidden files are not shown,
      whatever its contents. */
  lemma HiddenEntrySkipped(dir: string, e: Entry, ignored: string -> bool)
    requires e.File? || e.Dir? || e.Sealed?
    requires Hidden(e.name)
    ensures WalkEntry(dir, e, false, ignored) == Done([])
  {
    HiddenEntryIsPruned(dir, e, ignored);
  }

  // ---------------------------------------------------------------------
  // Counting jobs

  /** A tree in which every entry has metadata and every directory can be
      listed. */
  predicate Healthy(es: seq<Entry>)
    decreases es
  {
    |es| == 0 || (HealthyEntry(es[0]) && Healthy(es[1..]))
  }

  predicate HealthyEntry(e: Entry)
    decreases e
  {
    match e
    case Dir(_, cs) => Healthy(cs)
    case Sealed(_) => false
    case Dangling(_) => false
    case _ => true
  }

  /** The number of files in a listing, at every depth. */
  function FileCount(es: seq<Entry>): (n: nat)
    decreases es
  {
    if |es| == 0 then 0 else EntryFileCount(es[0]) + FileCount(es[1..])
  }

  function EntryFileCount(e: Entry): (n: nat)
    decreases e
  {
    match e
    case File(_) => 1
    case Dir(_, cs) => FileCount(cs)
    case _ => 0
  }

  /** With hidden files shown and nothing ignored, a walk of a healthy tree
      ends without an error and dispatches one job per file. */
  lemma {:induction false} OneJobPerFile(dir: string, es: seq<Entry>, ignored: string -> bool)
    requires forall p :: !ignored(p)
    requires Healthy(es)
    ensures WalkEntries(dir, es, true, ignored).fault.None?
    ensures |WalkEntries(dir, es, true, ignored).jobs| == FileCount(es)
    decreases es
  {
    if |es| > 0 {
      OneJobPerEntry(dir, es[0], ignored);
      OneJobPerFile(dir, es[1..], ignored);
    }
  }

  lemma {:induction false} OneJobPerEntry(dir: string, e: Entry, ignored: string -> bool)
    requires forall p :: !ignored(p)
    requires HealthyEntry(e)
    ensures WalkEntry(dir, e, true, ignored).fault.None?
    ensures |WalkEntry(dir, e, true, ignored).jobs| == EntryFileCount(e)
    decreases e
  {
    if e.Dir? {
      OneJobPerFile(Join(dir, e.name), e.children, ignored);
    }
  }

  // ---------------------------------------------------------------------
  // A worked example

  /** Walking a one-entry listing is walking that entry. */
  lemma WalkSingle(dir: string, e: Entry, showHidden: bool, ignored: string -> bool)
    ensures WalkEntries(dir, [e], showHidden, ignored) == WalkEntry(dir, e, showHidden, ignored)
  {
    var w := WalkEntry(dir, e, showHidden, ignored);
    assert [e][1..] == [];
    assert w.jobs + [] == w.jobs;
  }

  /** The listing of a root holding `a.txt`, `.secret` and `sub/b.txt`. */
  function SmallTree(): (es: seq<Entry>)
  {
    [File("a.txt"), File(".secret"), Dir("sub", [File("b.txt")])]
  }

  /** What each entry of the small tree contributes: `a.txt` a job, */
  lemma SmallTreeFile(showHidden: bool)
    ensures WalkEntry("/r", SmallTree()[0], showHidden, NeverIgnored) == Done(["/r/a.txt"])
  {
    assert Join("/r", "a.txt") == "/r/a.txt";
  }

  /** `.secret` a job only when hidden files are shown, */
  lemma SmallTreeSecret(showHidden: bool)
    ensures WalkEntry("/r", SmallTree()[1], showHidden, NeverIgnored) == Done(if showHidden then ["/r/.secret"] else [])
  {
    assert Join("/r", ".secret") == "/r/.secret";
  }

  /** and `sub` the job for `b.txt`. */
  lemma SmallTreeSub(showHidden: bool)
    ensures WalkEntry("/r", SmallTree()[2], showHidden, NeverIgnored) == Done(["/r/sub/b.txt"])
  {
    assert Join("/r", "sub") == "/r/sub";
    assert Join("/r/sub", "b.txt") == "/r/sub/b.txt";
    WalkSingle("/r/sub", File("b.txt"), showHidden, NeverIgnored);
  }

  /** With hidden files hidden, `.secret` is skipped: two jobs. */
  lemma SmallTreeHidden()
    ensures WalkEntries("/r", SmallTree(), false, NeverIgnored) == Done(["/r/a.txt", "/r/sub/b.txt"])
  {
    var es := SmallTree();
    SmallTreeFile(false);
    SmallTreeSecret(false);
    SmallTreeSub(false);
    assert es[1..][1..] == [es[2]];
    WalkSingle("/r", es[2], false, NeverIgnored);
    assert [] + ["/r/sub/b.txt"] == ["/r/sub/b.txt"];
  }

  /** With hidden files shown: three jobs. */
  lemma SmallTreeShown()
    ensures WalkEntries("/r", SmallTree(), true, NeverIgnored) == Done(["/r/a.txt", "/r/.secret", "/r/sub/b.txt"])
  {
    var es := SmallTree();
    SmallTreeFile(true);
    SmallTreeSecret(true);
    SmallTreeSub(true);
    assert es[1..][1..] == [es[2]];
    WalkSingle("/r", es[2], true, NeverIgnored);
  }
}
