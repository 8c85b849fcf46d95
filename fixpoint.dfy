/** The bounded fixpoint loop the three scripts share: scan, drop the paths
    that already failed, try every remaining archive, and repeat until the
    scan comes back empty, the goal holds, or `max_iterations` rounds ran. */
module Fixpoint {
  import opened Common
  import opened Search
  import opened FileSystem
  import opened Scanner
  import EAP = ExtractAndPackage
  import EAZ = ExtractAllZips
  import EUT = ExtractUntilTargets

  /** Which of the four loops runs: `extract_all_jars`, `extract_all_zips`,
      `extract_all_recursive` and `extract_until_targets`, the last two with
      their exclude patterns. */
  datatype Variant = JarSweep | ZipSweep | RecursiveZipSweep(excludes: seq<string>) | TargetSweep(excludes: seq<string>)

  /** The scan each loop calls once per round. */
  function RuleOf(v: Variant): ScanRule {
    match v
    case JarSweep => EAP.JarRule
    case ZipSweep => ScanRule([".zip"], EAP.DefaultZipExcludes)
    case RecursiveZipSweep(excludes) => ScanRule([".zip"], excludes)
    case TargetSweep(excludes) => ScanRule([".zip", ".jar"], excludes)
  }

  /** What the loop's extractor, called with `skip_if_corrupt=True`, does to
      one archive; it never raises. */
  function StepOf(v: Variant, t: Tree, tools: Tools, p: Path): (s: Step)
    requires |p| > 0
    ensures s.outcome != Raised
  {
    match v
    case JarSweep =>
      EAP.JarSkipNeverRaises(t, tools, p);
      EAP.JarStep(t, tools, p, true)
    case ZipSweep => EAP.FlatZipStep(t, tools, p, true)
    case RecursiveZipSweep(_) => EAZ.CheckedZipStep(t, tools, p, true)
    case TargetSweep(_) =>
      EUT.ArchiveSkipNeverRaises(t, tools, p);
      EUT.ArchiveStep(t, tools, p, true)
  }

  /** Whichever loop runs, an archive is removed exactly when its extraction
      reports success. */
  lemma StepRemovesOnlyOnSuccess(v: Variant, t: Tree, tools: Tools, p: Path)
    requires |p| > 0 && IsFile(t, p)
    ensures var s := StepOf(v, t, tools, p);
            s.outcome == Extracted <==> p !in s.tree
  {
    match v
    case JarSweep => EAP.JarRemovedOnlyOnSuccess(t, tools, p, true);
    case ZipSweep => EAP.FlatZipRemovedOnlyOnSuccess(t, tools, p, true);
    case RecursiveZipSweep(_) => EAZ.CheckedZipRemovedOnlyOnSuccess(t, tools, p, true);
    case TargetSweep(_) => EUT.ArchiveRemovedOnlyOnSuccess(t, tools, p, true);
  }

  /** One call of a loop's extractor removes no entry but its own archive,
      and that one only when it reports success. */
  lemma StepRemovesOnlyItsArchive(v: Variant, t: Tree, tools: Tools, p: Path)
    requires |p| > 0
    ensures var s := StepOf(v, t, tools, p);
            forall k :: k in t && k !in s.tree ==> k == p && s.outcome == Extracted
  {
  }

  /** How a loop ended: the scan came back empty, the goal held (goal-directed
      loop only), or `max_iterations` rounds ran. */
  datatype Stop = Exhausted | Converged | CapReached

  /** One call of the extractor: the archive and whether it returned True. */
  datatype Attempt = Attempt(path: Path, extracted: bool)

  /** One round of a loop: the tree its scan saw, the skip set at that point,
      and the archives it went on to try. */
  datatype RoundRecord = RoundRecord(start: Tree, skippedBefore: set<Path>, pending: seq<Path>)

  /** One round's `for` loop started on tree `t`: the loop's extractor on
      each pending archive in order, each call on the tree the previous one
      left. Gives the tree after the round and the calls with their results. */
  function RoundEffect(v: Variant, t: Tree, tools: Tools, pending: seq<Path>): (Tree, seq<Attempt>)
    requires forall p :: p in pending ==> |p| > 0
  {
    if pending == [] then (t, [])
    else
      var e := RoundEffect(v, t, tools, pending[..|pending| - 1]);
      var p := pending[|pending| - 1];
      var s := StepOf(v, e.0, tools, p);
      (s.tree, e.1 + [Attempt(p, s.outcome == Extracted)])
  }

  /** A round calls the extractor exactly once on each pending archive, in
      order. */
  lemma {:induction false} RoundTriesEachPending(v: Variant, t: Tree, tools: Tools, pending: seq<Path>)
    requires forall p :: p in pending ==> |p| > 0
    ensures var atts := RoundEffect(v, t, tools, pending).1;
            |atts| == |pending| && forall i :: 0 <= i < |pending| ==> atts[i].path == pending[i]
  {
    if pending != [] {
      var init := pending[..|pending| - 1];
      RoundTriesEachPending(v, t, tools, init);
      var before := RoundEffect(v, t, tools, init).1;
      var last := pending[|pending| - 1];
      var a := Attempt(last, StepOf(v, RoundEffect(v, t, tools, init).0, tools, last).outcome == Extracted);
      assert RoundEffect(v, t, tools, pending).1 == before + [a];
      forall i | 0 <= i < |pending| ensures (before + [a])[i].path == pending[i] {
        if i < |init| {
          assert pending[i] == init[i];
        }
      }
    }
  }

  /** Across a round, an entry disappears from the tree only as an archive
      whose own call returned True. */
  lemma {:induction false} RoundRemovesOnlyExtracted(v: Variant, t: Tree, tools: Tools, pending: seq<Path>)
    requires forall p :: p in pending ==> |p| > 0
    ensures var e := RoundEffect(v, t, tools, pending);
            forall k :: k in t && k !in e.0 ==> Attempt(k, true) in e.1
  {
    if pending != [] {
      var init := pending[..|pending| - 1];
      RoundRemovesOnlyExtracted(v, t, tools, init);
      StepRemovesOnlyItsArchive(v, RoundEffect(v, t, tools, init).0, tools, pending[|pending| - 1]);
    }
  }

  /** The paths whose extraction returned False. */
  function FailedPaths(atts: seq<Attempt>): set<Path> {
    if atts == [] then {}
    else
      var last := atts[|atts| - 1];
      FailedPaths(atts[..|atts| - 1]) + (if last.extracted then {} else {last.path})
  }

  /** The number of calls that returned True. */
  function CountExtracted(atts: seq<Attempt>): nat {
    if atts == [] then 0
    else CountExtracted(atts[..|atts| - 1]) + (if atts[|atts| - 1].extracted then 1 else 0)
  }

  lemma {:induction false} FailedPathsAreFailures(atts: seq<Attempt>, p: Path)
    ensures p in FailedPaths(atts) <==> exists i :: 0 <= i < |atts| && !atts[i].extracted && atts[i].path == p
  {
    if atts != [] {
      var init := atts[..|atts| - 1];
      FailedPathsAreFailures(init, p);
      if p in FailedPaths(init) {
        var i :| 0 <= i < |init| && !init[i].extracted && init[i].path == p;
        assert atts[i] == init[i];
      }
      if exists i :: 0 <= i < |atts| && !atts[i].extracted && atts[i].path == p {
        var i :| 0 <= i < |atts| && !atts[i].extracted && atts[i].path == p;
        if i < |init| {
          assert init[i] == atts[i];
        }
      }
    }
  }

  /** The archives tried, in the order of the calls. */
  function Paths(atts: seq<Attempt>): seq<Path> {
    if atts == [] then [] else Paths(atts[..|atts| - 1]) + [atts[|atts| - 1].path]
  }

  /** No archive whose extraction returned False is tried again. */
  ghost predicate NeverRetried(atts: seq<Attempt>) {
    forall i, j :: 0 <= i < j < |atts| && !atts[i].extracted ==> atts[j].path != atts[i].path
  }

  /** Recording a call on a path that has not failed before keeps every
      bookkeeping fact. */
  lemma Record(atts: seq<Attempt>, a: Attempt)
    requires NeverRetried(atts) && a.path !in FailedPaths(atts)
    ensures NeverRetried(atts + [a])
    ensures FailedPaths(atts + [a]) == FailedPaths(atts) + (if a.extracted then {} else {a.path})
    ensures CountExtracted(atts + [a]) == CountExtracted(atts) + (if a.extracted then 1 else 0)
    ensures Paths(atts + [a]) == Paths(atts) + [a.path]
  {
    var next := atts + [a];
    assert next[..|next| - 1] == atts;
    forall i | 0 <= i < |atts| && !atts[i].extracted ensures a.path != atts[i].path {
      FailedPathsAreFailures(atts, atts[i].path);
    }
  }

  /** The number of rounds `while iteration < max_iterations` allows. */
  function Rounds(maxIterations: int): nat {
    if maxIterations > 0 then maxIterations else 0
  }

  /** When a round's scan, after dropping the skip set, leaves nothing, every
      archive the scan selects has already failed. */
  lemma NothingPendingMeansAllSkipped(rule: ScanRule, top: string, t: Tree, xs: seq<Path>, skipped: set<Path>)
    requires IsListingOf(xs, t)
    requires Unskipped(Candidates(rule, top, t, xs), skipped) == []
    ensures forall p :: Selected(rule, top, t, p) ==> p in skipped
  {
    var found := Candidates(rule, top, t, xs);
    forall p | Selected(rule, top, t, p) ensures p in skipped {
      assert p in xs;
      assert p in found;
    }
  }

  /** The goal a loop checks before each scan: all three targets for the
      goal-directed loop, never for the others. */
  function GoalOf(v: Variant, top: string, listing: Tree -> seq<Path>): Tree -> bool {
    if v.TargetSweep? then t => EUT.TargetsFound(t, top, listing(t)) else NoGoal
  }

  /** The goal of the loops that run until nothing is left. */
  const NoGoal: Tree -> bool := _ => false

  /** One run of one of the loops: the local variables `iteration`,
      `extracted_count` and `skipped_files`, and the calls made so far. */
  class Sweep {
    const ws: Workspace
    const variant: Variant
    const maxIterations: int
    const goal: Tree -> bool
    ghost const origin: Tree
    var iteration: nat
    var extractedCount: nat
    var skipped: set<Path>
    ghost var attempts: seq<Attempt>
    ghost var history: seq<RoundRecord>

    ghost predicate Valid()
      reads this
    {
      && ws.Valid()
      && (!variant.TargetSweep? ==> goal == NoGoal)
      && iteration <= Rounds(maxIterations)
      && extractedCount == CountExtracted(attempts)
      && skipped == FailedPaths(attempts)
      && NeverRetried(attempts)
    }

    /** Round `r` ran as the loop runs one: the goal did not hold on the tree
        it started from, and it set out to try exactly the archives the scan
        of that tree found outside the skip set, of which there was one at
        least. */
    ghost predicate RanAsScanned(r: RoundRecord) {
      && !goal(r.start)
      && r.pending == Unskipped(Candidates(RuleOf(variant), ws.top, r.start, ws.listing(r.start)), r.skippedBefore)
      && r.pending != []
    }

    /** The rounds of `h`, run one after another from the tree `t0`, leave
        the tree `t` and make the calls `atts`: each round is the extractor
        folded over its pending archives (`RoundEffect`) on the tree the
        previous round left, after a scan of that tree with the skip set the
        earlier calls had built. */
    ghost predicate Ran(t0: Tree, h: seq<RoundRecord>, t: Tree, atts: seq<Attempt>)
      decreases |h|
    {
      if h == [] then t == t0 && atts == []
      else
        var r := h[|h| - 1];
        && RanAsScanned(r)
        && (forall p :: p in r.pending ==> |p| > 0)
        && var e := RoundEffect(variant, r.start, ws.tools, r.pending);
           && t == e.0
           && |e.1| <= |atts| && atts[|atts| - |e.1|..] == e.1
           && r.skippedBefore == FailedPaths(atts[..|atts| - |e.1|])
           && Ran(t0, h[..|h| - 1], r.start, atts[..|atts| - |e.1|])
    }

    /** A round run after the rounds of `h` extends them. */
    lemma RanOneMore(t0: Tree, h: seq<RoundRecord>, r: RoundRecord, before: seq<Attempt>, atts: seq<Attempt>)
      requires RanAsScanned(r) && forall p :: p in r.pending ==> |p| > 0
      requires Ran(t0, h, r.start, before) && r.skippedBefore == FailedPaths(before)
      requires atts == before + RoundEffect(variant, r.start, ws.tools, r.pending).1
      ensures Ran(t0, h + [r], RoundEffect(variant, r.start, ws.tools, r.pending).0, atts)
    {
      var e := RoundEffect(variant, r.start, ws.tools, r.pending);
      assert (h + [r])[..|h + [r]| - 1] == h;
      assert atts[|atts| - |e.1|..] == e.1;
      assert atts[..|atts| - |e.1|] == before;
    }

    /** Across the rounds run so far, an entry of the starting tree is gone
        only if it is an archive whose call returned True. */
    lemma {:induction false} RanRemovesOnlyExtracted(t0: Tree, h: seq<RoundRecord>, t: Tree, atts: seq<Attempt>)
      requires Ran(t0, h, t, atts)
      ensures forall k :: k in t0 && k !in t ==> Attempt(k, true) in atts
      decreases |h|
    {
      if h != [] {
        var r := h[|h| - 1];
        var e := RoundEffect(variant, r.start, ws.tools, r.pending);
        var before := atts[..|atts| - |e.1|];
        assert atts == before + e.1;
        assert t == e.0;
        RanRemovesOnlyExtracted(t0, h[..|h| - 1], r.start, before);
        RoundRemovesOnlyExtracted(variant, r.start, ws.tools, r.pending);
        forall k | k in t0 && k !in t ensures Attempt(k, true) in atts {
          if k in r.start {
            assert Attempt(k, true) in e.1;
          } else {
            assert Attempt(k, true) in before;
          }
        }
      }
    }

    /** The counter counts the rounds run, and those rounds, run from the
        tree the loop started on, account for the current tree and for every
        call made. */
    ghost predicate Accounted()
      reads this, ws
    {
      |history| == iteration && Ran(origin, history, ws.tree, attempts)
    }

    constructor (ws: Workspace, variant: Variant, maxIterations: int)
      requires ws.Valid()
      ensures Valid()
      ensures this.ws == ws && this.variant == variant && this.maxIterations == maxIterations
      ensures goal == GoalOf(variant, ws.top, ws.listing)
      ensures iteration == 0 && extractedCount == 0 && skipped == {} && attempts == []
      ensures history == [] && origin == ws.tree && Accounted()
    {
      this.ws := ws;
      this.variant := variant;
      this.maxIterations := maxIterations;
      this.goal := GoalOf(variant, ws.top, ws.listing);
      iteration := 0;
      extractedCount := 0;
      skipped := {};
      attempts := [];
      history := [];
      origin := ws.tree;
    }

    /** The goal checked before each scan: `check_targets_found()` reports all
        three targets (goal-directed loop only). */
    predicate GoalReached()
      reads ws
    {
      goal(ws.tree)
    }

    /** The scan of one round, through the script's own finder. */
    method ScanArchives() returns (found: seq<Path>)
      requires ws.Valid()
      ensures found == Candidates(RuleOf(variant), ws.top, ws.tree, ws.listing(ws.tree))
      ensures NoDup(found)
    {
      match variant {
        case JarSweep =>
          found := EAP.FindJarFiles(ws);
        case ZipSweep =>
          found := EAP.FindZipFiles(ws, Some(EAP.DefaultZipExcludes));
        case RecursiveZipSweep(excludes) =>
          found := EAZ.FindZipFiles(ws, Some(excludes));
        case TargetSweep(excludes) =>
          found := EUT.FindArchives(ws, Some(excludes));
      }
    }

    /** The loop's extractor on one archive, with `skip_if_corrupt=True`. */
    method ExtractOne(p: Path) returns (r: Outcome)
      requires |p| > 0
      modifies ws
      ensures Step(ws.tree, r) == StepOf(variant, old(ws.tree), ws.tools, p)
    {
      match variant {
        case JarSweep =>
          r := EAP.ExtractJar(ws, p, true);
        case ZipSweep =>
          r := EAP.ExtractZip(ws, p, true);
        case RecursiveZipSweep(_) =>
          r := EAZ.ExtractZip(ws, p, true);
        case TargetSweep(_) =>
          r := EUT.ExtractArchive(ws, p, true);
      }
    }

    /** Count a success, or add a failure to the skip set. */
    method Tally(p: Path, extracted: bool)
      requires Valid() && p !in skipped
      modifies this
      ensures Valid() && iteration == old(iteration) && history == old(history)
      ensures attempts == old(attempts) + [Attempt(p, extracted)]
      ensures Paths(attempts) == Paths(old(attempts)) + [p]
      ensures extractedCount == old(extractedCount) + (if extracted then 1 else 0)
      ensures skipped == old(skipped) + (if extracted then {} else {p})
    {
      Record(attempts, Attempt(p, extracted));
      if extracted {
        extractedCount := extractedCount + 1;
      } else {
        skipped := skipped + {p};
      }
      attempts := attempts + [Attempt(p, extracted)];
    }

    /** One pass of the `for` body: extract, then tally the result. */
    method Try(p: Path) returns (r: Outcome)
      requires Valid() && |p| > 0 && p !in skipped
      modifies this, ws
      ensures Valid() && iteration == old(iteration) && history == old(history)
      ensures r != Raised
      ensures Step(ws.tree, r) == StepOf(variant, old(ws.tree), ws.tools, p)
      ensures attempts == old(attempts) + [Attempt(p, r == Extracted)]
      ensures Paths(attempts) == Paths(old(attempts)) + [p]
      ensures skipped == old(skipped) + (if r == Extracted then {} else {p})
    {
      r := ExtractOne(p);
      Tally(p, r == Extracted);
    }

    /** The `for archive in archives:` loop after `i` archives, in a round
        that started on tree `t0` with calls `atts0`: the tree and the calls
        are those of the extractor on the first `i` pending archives, and none
        of the others has failed. */
    ghost predicate RoundAfter(pending: seq<Path>, i: nat, t0: Tree, atts0: seq<Attempt>, skipped0: set<Path>, iteration0: nat)
      reads this, ws
    {
      && i <= |pending|
      && (forall p :: p in pending ==> |p| > 0)
      && Valid() && iteration == iteration0
      && ws.tree == RoundEffect(variant, t0, ws.tools, pending[..i]).0
      && attempts == atts0 + RoundEffect(variant, t0, ws.tools, pending[..i]).1
      && (forall k :: i <= k < |pending| ==> pending[k] !in skipped)
      && skipped0 <= skipped
    }

    /** The body of the `for` loop on the `i`-th pending archive. */
    method TryNext(pending: seq<Path>, i: nat, ghost t0: Tree, ghost atts0: seq<Attempt>, ghost skipped0: set<Path>, ghost iteration0: nat)
      requires NoDup(pending) && i < |pending|
      requires RoundAfter(pending, i, t0, atts0, skipped0, iteration0)
      modifies this, ws
      ensures RoundAfter(pending, i + 1, t0, atts0, skipped0, iteration0)
      ensures history == old(history)
    {
      var p := pending[i];
      var r := Try(p);
      forall k | i + 1 <= k < |pending| ensures pending[k] !in skipped {
        assert pending[i] != pending[k];
      }
      assert pending[..i + 1][..i] == pending[..i];
    }

    /** `for archive in archives:` every pending archive is tried once, in
        order. */
    method Round(pending: seq<Path>)
      requires Valid() && NoDup(pending)
      requires forall p :: p in pending ==> |p| > 0 && p !in skipped
      modifies this, ws
      ensures Valid()
      ensures iteration == old(iteration) && history == old(history) && old(skipped) <= skipped
      ensures ws.tree == RoundEffect(variant, old(ws.tree), ws.tools, pending).0
      ensures attempts == old(attempts) + RoundEffect(variant, old(ws.tree), ws.tools, pending).1
    {
      var i := 0;
      while i < |pending|
        invariant RoundAfter(pending, i, old(ws.tree), old(attempts), old(skipped), old(iteration))
        invariant history == old(history)
        decreases |pending| - i
      {
        TryNext(pending, i, old(ws.tree), old(attempts), old(skipped), old(iteration));
        i := i + 1;
      }
      assert pending[..i] == pending;
    }

    /** The rest of the `while` body once its scan found something to try:
        the round, logged with the scan that started it, then `iteration += 1`. */
    method Pass(pending: seq<Path>)
      requires Valid() && Accounted() && iteration < maxIterations && !GoalReached()
      requires pending == Unskipped(Candidates(RuleOf(variant), ws.top, ws.tree, ws.listing(ws.tree)), skipped)
      requires pending != []
      modifies this, ws
      ensures Valid() && Accounted()
      ensures iteration == old(iteration) + 1 && old(skipped) <= skipped
      ensures history == old(history) + [RoundRecord(old(ws.tree), old(skipped), pending)]
      ensures ws.tree == RoundEffect(variant, old(ws.tree), ws.tools, pending).0
      ensures attempts == old(attempts) + RoundEffect(variant, old(ws.tree), ws.tools, pending).1
    {
      ghost var record := RoundRecord(ws.tree, skipped, pending);
      assert RanAsScanned(record);
      assert IsListingOf(ws.listing(ws.tree), ws.tree);
      ghost var before := attempts;
      Round(pending);
      RanOneMore(origin, history, record, before, attempts);
      Advance(record);
    }

    /** `iteration += 1`, logging the round that has just run. */
    method Advance(ghost record: RoundRecord)
      requires Valid() && iteration < maxIterations
      requires |history| == iteration && Ran(origin, history + [record], ws.tree, attempts)
      modifies this
      ensures Valid() && Accounted()
      ensures iteration == old(iteration) + 1 && history == old(history) + [record]
      ensures attempts == old(attempts) && skipped == old(skipped)
    {
      history := history + [record];
      iteration := iteration + 1;
    }

    /** The `while iteration < max_iterations` loop. Every round it counts
        is recorded in `history` with the scan that started it. */
    method Run() returns (stop: Stop)
      requires Valid() && Accounted()
      modifies this, ws
      ensures Valid() && Accounted()
      ensures old(attempts) <= attempts && old(history) <= history && old(skipped) <= skipped
      ensures stop == CapReached ==> iteration == Rounds(maxIterations)
      ensures stop == Exhausted ==> !GoalReached()
      ensures stop == Exhausted ==>
                Unskipped(Candidates(RuleOf(variant), ws.top, ws.tree, ws.listing(ws.tree)), skipped) == []
      ensures stop == Exhausted ==> forall p :: Selected(RuleOf(variant), ws.top, ws.tree, p) ==> p in skipped
      ensures stop == Converged ==> GoalReached()
      ensures !variant.TargetSweep? ==> stop != Converged
      ensures old(GoalReached()) && old(iteration) < maxIterations ==>
                stop == Converged && attempts == old(attempts) && ws.tree == old(ws.tree)
    {
      while iteration < maxIterations
        invariant Valid() && Accounted()
        invariant old(attempts) <= attempts
        invariant old(history) <= history
        invariant old(skipped) <= skipped
        invariant old(iteration) <= iteration
        invariant iteration == old(iteration) ==> attempts == old(attempts) && ws.tree == old(ws.tree)
        invariant old(GoalReached()) && old(iteration) < maxIterations ==> iteration == old(iteration)
        decreases maxIterations - iteration
      {
        if GoalReached() {
          return Converged;
        }
        var found := ScanArchives();
        var pending := Unskipped(found, skipped);
        if pending == [] {
          NothingPendingMeansAllSkipped(RuleOf(variant), ws.top, ws.tree, ws.listing(ws.tree), skipped);
          return Exhausted;
        }
        Pass(pending);
      }
      stop := CapReached;
    }
  }

  /** `extract_all_jars(directory, max_iterations=200)`; returns the loop's state. */
  method ExtractAllJars(ws: Workspace, maxIterations: int := 200) returns (sweep: Sweep, stop: Stop)
    requires ws.Valid()
    modifies ws
    ensures fresh(sweep) && sweep.ws == ws && sweep.Valid() && sweep.variant == JarSweep
    ensures stop != Converged
    ensures sweep.Accounted() && sweep.origin == old(ws.tree) && |sweep.history| <= Rounds(maxIterations)
    ensures forall k :: k in old(ws.tree) && k !in ws.tree ==> Attempt(k, true) in sweep.attempts
    ensures stop == CapReached ==> |sweep.history| == Rounds(maxIterations)
    ensures stop == Exhausted ==>
              Unskipped(Candidates(RuleOf(sweep.variant), ws.top, ws.tree, ws.listing(ws.tree)), sweep.skipped) == []
    ensures stop == Exhausted ==> forall p :: Selected(EAP.JarRule, ws.top, ws.tree, p) ==> p in sweep.skipped
  {
    sweep := new Sweep(ws, JarSweep, maxIterations);
    stop := sweep.Run();
    sweep.RanRemovesOnlyExtracted(sweep.origin, sweep.history, ws.tree, sweep.attempts);
  }

  /** `extract_all_zips(directory, max_iterations=100)`, whose scan excludes
      "installer_payload.zip". */
  method ExtractAllZips(ws: Workspace, maxIterations: int := 100) returns (sweep: Sweep, stop: Stop)
    requires ws.Valid()
    modifies ws
    ensures fresh(sweep) && sweep.ws == ws && sweep.Valid() && sweep.variant == ZipSweep
    ensures stop != Converged
    ensures sweep.Accounted() && sweep.origin == old(ws.tree) && |sweep.history| <= Rounds(maxIterations)
    ensures forall k :: k in old(ws.tree) && k !in ws.tree ==> Attempt(k, true) in sweep.attempts
    ensures stop == CapReached ==> |sweep.history| == Rounds(maxIterations)
    ensures stop == Exhausted ==>
              Unskipped(Candidates(RuleOf(sweep.variant), ws.top, ws.tree, ws.listing(ws.tree)), sweep.skipped) == []
    ensures stop == Exhausted ==>
              forall p :: Selected(ScanRule([".zip"], EAP.DefaultZipExcludes), ws.top, ws.tree, p) ==> p in sweep.skipped
  {
    sweep := new Sweep(ws, ZipSweep, maxIterations);
    stop := sweep.Run();
    sweep.RanRemovesOnlyExtracted(sweep.origin, sweep.history, ws.tree, sweep.attempts);
  }

  /** `extract_all_recursive(max_iterations=100, exclude_patterns=None)` on
      the current directory; the patterns default to "installer_payload.zip". */
  method ExtractAllRecursive(ws: Workspace, maxIterations: int := 100, excludePatterns: Option<seq<string>> := None)
    returns (sweep: Sweep, stop: Stop)
    requires ws.Valid() && ws.top == "."
    modifies ws
    ensures var excludes := if excludePatterns.None? then EAZ.DefaultRecursiveExcludes else excludePatterns.value;
            fresh(sweep) && sweep.ws == ws && sweep.Valid() && sweep.variant == RecursiveZipSweep(excludes)
    ensures stop != Converged
    ensures sweep.Accounted() && sweep.origin == old(ws.tree) && |sweep.history| <= Rounds(maxIterations)
    ensures forall k :: k in old(ws.tree) && k !in ws.tree ==> Attempt(k, true) in sweep.attempts
    ensures stop == CapReached ==> |sweep.history| == Rounds(maxIterations)
    ensures stop == Exhausted ==>
              Unskipped(Candidates(RuleOf(sweep.variant), ws.top, ws.tree, ws.listing(ws.tree)), sweep.skipped) == []
    ensures stop == Exhausted ==> forall p :: Selected(RuleOf(sweep.variant), ws.top, ws.tree, p) ==> p in sweep.skipped
  {
    var excludes := if excludePatterns.None? then EAZ.DefaultRecursiveExcludes else excludePatterns.value;
    sweep := new Sweep(ws, RecursiveZipSweep(excludes), maxIterations);
    stop := sweep.Run();
    sweep.RanRemovesOnlyExtracted(sweep.origin, sweep.history, ws.tree, sweep.attempts);
  }

  /** `extract_until_targets(max_iterations=200, exclude_patterns=None)` on the
      current directory. When the three targets are already there, nothing is
      extracted at all. */
  method ExtractUntilTargets(ws: Workspace, maxIterations: int := 200, excludePatterns: Option<seq<string>> := None)
    returns (sweep: Sweep, stop: Stop)
    requires ws.Valid() && ws.top == "."
    modifies ws
    ensures var excludes := if excludePatterns.None? then EUT.DefaultExcludes else excludePatterns.value;
            fresh(sweep) && sweep.ws == ws && sweep.Valid() && sweep.variant == TargetSweep(excludes)
    ensures sweep.goal == GoalOf(sweep.variant, ws.top, ws.listing)
    ensures stop == Converged ==> sweep.GoalReached()
    ensures stop == Exhausted ==> !sweep.GoalReached()
    ensures sweep.Accounted() && sweep.origin == old(ws.tree) && |sweep.history| <= Rounds(maxIterations)
    ensures forall k :: k in old(ws.tree) && k !in ws.tree ==> Attempt(k, true) in sweep.attempts
    ensures stop == CapReached ==> |sweep.history| == Rounds(maxIterations)
    ensures stop == Exhausted ==>
              Unskipped(Candidates(RuleOf(sweep.variant), ws.top, ws.tree, ws.listing(ws.tree)), sweep.skipped) == []
    ensures stop == Exhausted ==> forall p :: Selected(RuleOf(sweep.variant), ws.top, ws.tree, p) ==> p in sweep.skipped
    ensures sweep.goal(old(ws.tree)) && maxIterations > 0 ==>
              stop == Converged && sweep.extractedCount == 0 && ws.tree == old(ws.tree)
  {
    var excludes := if excludePatterns.None? then EUT.DefaultExcludes else excludePatterns.value;
    sweep := new Sweep(ws, TargetSweep(excludes), maxIterations);
    ghost var atStart := sweep.GoalReached();
    stop := sweep.Run();
    sweep.RanRemovesOnlyExtracted(sweep.origin, sweep.history, ws.tree, sweep.attempts);
    assert sweep.goal(old(ws.tree)) == atStart;
  }
}
