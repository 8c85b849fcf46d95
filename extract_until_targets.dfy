/** extract_until_targets.py: expand ZIP and JAR archives below the current
    directory until the PowerPC GCC compiler, the P&E GDB server and its GDI
    directory can all be located. The loop itself lives in module Fixpoint. */
module ExtractUntilTargets {
  import opened Common
  import opened Search
  import opened FileSystem
  import opened Scanner

  // ---------------------------------------------------------------------------
  // Scan

  /** `exclude_patterns` of `find_archives` and `extract_until_targets` when none is given. */
  const DefaultExcludes: seq<string> := ["installer_payload.zip"]

  /** `find_archives`: every `.zip` or `.jar` file outside a ".git" root whose
      name contains none of the exclude patterns. */
  method FindArchives(ws: Workspace, excludePatterns: Option<seq<string>> := None) returns (found: seq<Path>)
    requires ws.Valid()
    ensures var excludes := if excludePatterns.None? then DefaultExcludes else excludePatterns.value;
            forall p :: p in found <==>
              |p| > 0 && IsFile(ws.tree, p) && !InGitRoot(ws.top, p)
              && (EndsWith(Name(p), ".zip") || EndsWith(Name(p), ".jar"))
              && forall e :: e in excludes ==> !Contains(Name(p), e)
    ensures NoDup(found)
    ensures var excludes := if excludePatterns.None? then DefaultExcludes else excludePatterns.value;
            found == Candidates(ScanRule([".zip", ".jar"], excludes), ws.top, ws.tree, ws.listing(ws.tree))
  {
    var excludes := if excludePatterns.None? then DefaultExcludes else excludePatterns.value;
    var rule := ScanRule([".zip", ".jar"], excludes);
    found := Scan(rule, ws.top, ws.tree, ws.listing(ws.tree));
    forall p | |p| > 0
      ensures HasSuffix(Name(p), rule.suffixes) <==> EndsWith(Name(p), ".zip") || EndsWith(Name(p), ".jar")
    {
      if EndsWith(Name(p), ".zip") {
        assert ".zip" in rule.suffixes;
      } else if EndsWith(Name(p), ".jar") {
        assert ".jar" in rule.suffixes;
      }
    }
  }

  // ---------------------------------------------------------------------------
  // Extraction

  /** `extract_archive`, given what a timeout of the `unzip` fallback leads to:
      unpack next to the archive; on `BadZipFile` run `unzip`, whose run counts
      when it exits 0 or mentions "warning" on stderr and the archive's
      directory is not empty; remove the archive only on success. */
  function ArchiveStepGiven(t: Tree, tools: Tools, p: Path, skipIfCorrupt: bool, onTimeout: Outcome): (s: Step)
  {
    match ZipOf(tools, t, p)
    case Members(entries) => Step(t + Place(Parent(p), entries) - {p}, Extracted)
    case ReadFailed => Step(t, Tolerate(skipIfCorrupt))
    case BadZip =>
      match UnzipOf(tools, t, p)
      case Exited(code, stderr, written) =>
        var t1 := t + Place(Parent(p), written);
        if (code == 0 || Contains(Lower(stderr), "warning")) && HasEntryBelow(t1, Parent(p)) then
          Step(t1 - {p}, Extracted)
        else
          Step(t1, Tolerate(skipIfCorrupt))
      case ToolMissing => Step(t, Tolerate(skipIfCorrupt))
      case TimedOut => Step(t, onTimeout)
  }

  /** `extract_archive` as written: `subprocess.TimeoutExpired` is raised inside
      the `except zipfile.BadZipFile` handler, where neither the inner
      `except (CalledProcessError, FileNotFoundError)` nor the sibling
      `except Exception` catches it, so it escapes whatever `skip_if_corrupt` says. */
  function ArchiveStepAsWritten(t: Tree, tools: Tools, p: Path, skipIfCorrupt: bool): (s: Step)
    ensures ZipOf(tools, t, p).BadZip? && UnzipOf(tools, t, p).TimedOut? ==> s == Step(t, Raised)
  {
    ArchiveStepGiven(t, tools, p, skipIfCorrupt, Raised)
  }

  /** `extract_archive` as its docstring and `skip_if_corrupt` intend: a
      timed-out `unzip` is one more failed extraction. */
  function ArchiveStep(t: Tree, tools: Tools, p: Path, skipIfCorrupt: bool): (s: Step)
    ensures ZipOf(tools, t, p).BadZip? && UnzipOf(tools, t, p).TimedOut? ==> s == Step(t, Tolerate(skipIfCorrupt))
  {
    ArchiveStepGiven(t, tools, p, skipIfCorrupt, Tolerate(skipIfCorrupt))
  }

  method ExtractArchive(ws: Workspace, p: Path, skipIfCorrupt: bool := true) returns (r: Outcome)
    modifies ws
    ensures Step(ws.tree, r) == ArchiveStep(old(ws.tree), ws.tools, p, skipIfCorrupt)
  {
    match ZipOf(ws.tools, ws.tree, p) {
      case Members(entries) =>
        ws.WriteBelow(Parent(p), entries);
        ws.Unlink(p);
        r := Extracted;
      case ReadFailed =>
        r := Tolerate(skipIfCorrupt);
      case BadZip =>
        match UnzipOf(ws.tools, ws.tree, p) {
          case Exited(code, stderr, written) =>
            ws.WriteBelow(Parent(p), written);
            if (code == 0 || Contains(Lower(stderr), "warning")) && HasEntryBelow(ws.tree, Parent(p)) {
              ws.Unlink(p);
              r := Extracted;
            } else {
              r := Tolerate(skipIfCorrupt);
            }
          case ToolMissing =>
            r := Tolerate(skipIfCorrupt);
          case TimedOut =>
            r := Tolerate(skipIfCorrupt);
        }
    }
  }

  /** As written, a corrupt archive whose `unzip` fallback times out aborts
      the call even though corrupt archives are to be skipped. */
  lemma TimeoutEscapesAsWritten(t: Tree, tools: Tools, p: Path)
    requires ZipOf(tools, t, p).BadZip? && UnzipOf(tools, t, p).TimedOut?
    ensures ArchiveStepAsWritten(t, tools, p, true).outcome == Raised
    ensures ArchiveStep(t, tools, p, true).outcome == Skipped
  {
  }

  /** Such an archive exists: any file that `zipfile` rejects and on which
      `unzip` runs past its 300 seconds. */
  lemma TimeoutCounterexample()
    ensures var tools := Tools(_ => BadZip, _ => TimedOut, _ => false);
            var t: Tree := map[["slow.zip"] := File([])];
            ArchiveStepAsWritten(t, tools, ["slow.zip"], true).outcome == Raised
  {
    var tools := Tools(_ => BadZip, _ => TimedOut, _ => false);
    var t: Tree := map[["slow.zip"] := File([])];
    assert ZipOf(tools, t, ["slow.zip"]) == BadZip;
    TimeoutEscapesAsWritten(t, tools, ["slow.zip"]);
  }

  /** Corrected, `skip_if_corrupt` keeps every archive from aborting the sweep. */
  lemma ArchiveSkipNeverRaises(t: Tree, tools: Tools, p: Path)
    ensures ArchiveStep(t, tools, p, true).outcome != Raised
  {
  }

  /** The `any(archive_dir.iterdir())` test cannot fail: the archive itself is
      still in its directory when the test runs. */
  lemma ArchiveDirNeverEmpty(t: Tree, p: Path, written: map<Path, Node>)
    requires |p| > 0 && IsFile(t, p)
    ensures HasEntryBelow(t + Place(Parent(p), written), Parent(p))
  {
    var t1 := t + Place(Parent(p), written);
    assert p in t1 && Below(Parent(p), p);
  }

  /** So the `unzip` fallback succeeds exactly when it exits 0 or reports a
      warning, whatever it wrote. */
  lemma ArchiveFallbackSucceedsOnCodeOrWarning(t: Tree, tools: Tools, p: Path, skipIfCorrupt: bool)
    requires ZipOf(tools, t, p).BadZip? && UnzipOf(tools, t, p).Exited?
    ensures var run := UnzipOf(tools, t, p);
            var extracted := ArchiveStep(t, tools, p, skipIfCorrupt).outcome == Extracted;
            extracted <==> run.code == 0 || Contains(Lower(run.stderr), "warning")
  {
    ArchiveDirNeverEmpty(t, p, UnzipOf(tools, t, p).written);
  }

  /** The archive is gone exactly when the call reports success; a failure
      removes nothing. */
  lemma ArchiveRemovedOnlyOnSuccess(t: Tree, tools: Tools, p: Path, skipIfCorrupt: bool)
    requires IsFile(t, p)
    ensures var s := ArchiveStep(t, tools, p, skipIfCorrupt);
            && (s.outcome == Extracted <==> p !in s.tree)
            && (s.outcome != Extracted ==> t.Keys <= s.tree.Keys)
  {
  }

  // ---------------------------------------------------------------------------
  // Locators

  /** The test of a path that `exists()` and `is_file()` both accept. */
  function FileTest(t: Tree): Path -> bool {
    q => IsFile(t, q)
  }

  /** `d / "bin" / name` for each name, in order. */
  function Bins(d: Path, names: seq<string>): (r: seq<Path>)
    ensures forall q :: q in r <==> exists b :: b in names && q == d + ["bin", b]
  {
    var r := seq(|names|, i requires 0 <= i < |names| => d + ["bin", names[i]]);
    assert forall b :: b in names ==> d + ["bin", b] in r by {
      forall b | b in names ensures d + ["bin", b] in r {
        var i :| 0 <= i < |names| && names[i] == b;
        assert r[i] == d + ["bin", b];
      }
    }
    r
  }

  const GccBinNames: seq<string> := ["powerpc-eabi-gcc", "powerpc-eabivle-gcc", "powerpc-gcc", "gcc"]
  const VleBinNames: seq<string> := ["powerpc-eabi-gcc", "powerpc-eabivle-gcc", "powerpc-gcc"]
  const GccGlobPrefixes: seq<string> := ["powerpc-eabi-gcc", "powerpc-eabivle-gcc", "powerpc-gcc"]
  const DocSuffixes: seq<string> := [".1", ".txt", ".pdf", ".html"]

  /** A name that `glob("gcc-*-powerpc*")` matches. */
  predicate GccDirName(n: string) {
    StartsWith(n, "gcc-") && Contains(n[4..], "-powerpc")
  }

  /** A name that `rglob("powerpc-*-4_9")` matches. */
  predicate VleDirName(n: string) {
    |n| >= 12 && StartsWith(n, "powerpc-") && EndsWith(n, "-4_9")
  }

  function CrossToolsTest(d: Path): Path -> bool {
    q => Below(d, q) && Name(q) == "Cross_Tools"
  }

  function GccDirTest(c: Path): Path -> bool {
    q => |q| > 0 && Parent(q) == c && GccDirName(Name(q))
  }

  function VleDirTest(d: Path): Path -> bool {
    q => Below(d, q) && VleDirName(Name(q))
  }

  function NamePrefixTest(d: Path, prefix: string): Path -> bool {
    q => Below(d, q) && StartsWith(Name(q), prefix)
  }

  /** Tier one of `find_powerpc_gcc`: for each `Cross_Tools` entry, for each
      `gcc-*-powerpc*` child, each binary name below its `bin`. */
  function Tier1Candidates(xs: seq<Path>, d: Path): seq<Path> {
    Expand(Keep(xs, CrossToolsTest(d)), c => Expand(Keep(xs, GccDirTest(c)), g => Bins(g, GccBinNames)))
  }

  /** Tier two: for each `powerpc-*-4_9` entry, each of three binary names. */
  function Tier2Candidates(xs: seq<Path>, d: Path): seq<Path> {
    Expand(Keep(xs, VleDirTest(d)), g => Bins(g, VleBinNames))
  }

  /** Tier three: the matches of the three recursive `<prefix>*` globs, pattern by pattern. */
  function Tier3Candidates(xs: seq<Path>, d: Path): seq<Path> {
    Keep(xs, NamePrefixTest(d, GccGlobPrefixes[0]))
    + Keep(xs, NamePrefixTest(d, GccGlobPrefixes[1]))
    + Keep(xs, NamePrefixTest(d, GccGlobPrefixes[2]))
  }

  /** Tier three's check: a file whose path string mentions "powerpc", whose
      name mentions "gcc", and whose suffix is not that of a manual page or
      a document. */
  function Tier3Test(t: Tree, top: string): Path -> bool {
    q => |q| > 0 && IsFile(t, q) && Contains(Lower(Render(top, q)), "powerpc")
         && Contains(Lower(Name(q)), "gcc") && Suffix(Name(q)) !in DocSuffixes
  }

  /** Some entry of `c` is a regular file. */
  ghost predicate AnyFile(t: Tree, c: seq<Path>) {
    exists q :: q in c && IsFile(t, q)
  }

  /** The first hit of the first tier that has one: `c1` and `c2` are searched
      for a file, `c3` for an entry passing `ok3`. */
  function FirstOfTiers(t: Tree, c1: seq<Path>, c2: seq<Path>, c3: seq<Path>, ok3: Path -> bool): (r: Option<Path>)
    ensures AnyFile(t, c1) ==> IsFirstWhere(c1, FileTest(t), r)
    ensures !AnyFile(t, c1) && AnyFile(t, c2) ==>
              IsFirstWhere(c2, FileTest(t), r)
    ensures !AnyFile(t, c1) && !AnyFile(t, c2) ==>
              IsFirstWhere(c3, ok3, r)
    ensures r.Some? ==> ((r.value in c1 || r.value in c2) && IsFile(t, r.value)) || (r.value in c3 && ok3(r.value))
    ensures r.None? <==> !AnyFile(t, c1) && !AnyFile(t, c2) && forall q :: q in c3 ==> !ok3(q)
  {
    var r1 := First(c1, FileTest(t));
    if r1.Some? then r1
    else
      var r2 := First(c2, FileTest(t));
      if r2.Some? then r2
      else First(c3, ok3)
  }

  /** `find_powerpc_gcc(directory)`: the first hit of the first tier that has
      one, with `d` the directory and `xs` the walk order. */
  function FindPowerpcGcc(t: Tree, top: string, xs: seq<Path>, d: Path): (r: Option<Path>)
    ensures var c1, c2, c3 := Tier1Candidates(xs, d), Tier2Candidates(xs, d), Tier3Candidates(xs, d);
            && (AnyFile(t, c1) ==> IsFirstWhere(c1, FileTest(t), r))
            && (!AnyFile(t, c1) && AnyFile(t, c2) ==>
                  IsFirstWhere(c2, FileTest(t), r))
            && (!AnyFile(t, c1) && !AnyFile(t, c2) ==>
                  IsFirstWhere(c3, Tier3Test(t, top), r))
            && (r.None? <==> !AnyFile(t, c1) && !AnyFile(t, c2) && forall q :: q in c3 ==> !Tier3Test(t, top)(q))
  {
    FirstOfTiers(t, Tier1Candidates(xs, d), Tier2Candidates(xs, d), Tier3Candidates(xs, d), Tier3Test(t, top))
  }

  lemma GccNamesMentionGcc()
    ensures forall b :: b in GccBinNames ==> Contains(b, "gcc")
  {
    assert OccursAt(GccBinNames[0], "gcc", 13);
    assert OccursAt(GccBinNames[1], "gcc", 16);
    assert OccursAt(GccBinNames[2], "gcc", 8);
    assert OccursAt(GccBinNames[3], "gcc", 0);
  }

  /** A binary `d / "bin" / b` below a directory whose name mentions "powerpc"
      passes tier three's path and name tests. */
  lemma BinPassesNameTests(top: string, g: Path, b: string)
    requires |g| > 0 && Contains(Name(g), "powerpc") && b in GccBinNames
    ensures var q := g + ["bin", b];
            Contains(Lower(Render(top, q)), "powerpc") && Contains(Lower(Name(q)), "gcc")
  {
    var q := g + ["bin", b];
    assert q[|g| - 1] == Name(g);
    RenderContainsComponent(top, q, |g| - 1);
    ContainsTransitive(Render(top, q), Name(g), "powerpc");
    LowerKeepsLowerText(Render(top, q), "powerpc");
    GccNamesMentionGcc();
    assert Name(q) == b;
    LowerKeepsLowerText(b, "gcc");
  }

  lemma GccDirMentionsPowerpc(n: string)
    requires GccDirName(n)
    ensures Contains(n, "powerpc")
  {
    ContainsInTail(n, 4, "-powerpc");
    assert OccursAt("-powerpc", "powerpc", 1);
    ContainsTransitive(n, "-powerpc", "powerpc");
  }

  /** A tier-one candidate is a binary name below the `bin` of a
      `gcc-*-powerpc*` directory. */
  lemma Tier1Shape(xs: seq<Path>, d: Path, q: Path) returns (g: Path, b: string)
    requires q in Tier1Candidates(xs, d)
    ensures |g| > 0 && GccDirName(Name(g)) && b in GccBinNames && q == g + ["bin", b]
  {
    var c :| c in Keep(xs, CrossToolsTest(d)) && q in Expand(Keep(xs, GccDirTest(c)), g => Bins(g, GccBinNames));
    g :| g in Keep(xs, GccDirTest(c)) && q in Bins(g, GccBinNames);
    b :| b in GccBinNames && q == g + ["bin", b];
  }

  /** Every tier-one candidate passes tier three's path and name tests. */
  lemma Tier1MentionsPowerpcGcc(top: string, xs: seq<Path>, d: Path, q: Path)
    requires q in Tier1Candidates(xs, d)
    ensures |q| > 0 && Contains(Lower(Render(top, q)), "powerpc") && Contains(Lower(Name(q)), "gcc")
  {
    var g, b := Tier1Shape(xs, d, q);
    GccDirMentionsPowerpc(Name(g));
    BinPassesNameTests(top, g, b);
  }

  /** A tier-two candidate is a binary name below the `bin` of a
      `powerpc-*-4_9` directory. */
  lemma Tier2Shape(xs: seq<Path>, d: Path, q: Path) returns (g: Path, b: string)
    requires q in Tier2Candidates(xs, d)
    ensures |g| > 0 && VleDirName(Name(g)) && b in GccBinNames && q == g + ["bin", b]
  {
    g :| g in Keep(xs, VleDirTest(d)) && q in Bins(g, VleBinNames);
    b :| b in VleBinNames && q == g + ["bin", b];
  }

  /** Every tier-two candidate passes tier three's path and name tests. */
  lemma Tier2MentionsPowerpcGcc(top: string, xs: seq<Path>, d: Path, q: Path)
    requires q in Tier2Candidates(xs, d)
    ensures |q| > 0 && Contains(Lower(Render(top, q)), "powerpc") && Contains(Lower(Name(q)), "gcc")
  {
    var g, b := Tier2Shape(xs, d, q);
    assert OccursAt(Name(g), "powerpc", 0);
    BinPassesNameTests(top, g, b);
  }

  /** Whichever tier answers, the answer is a file whose path mentions
      "powerpc" and whose name mentions "gcc": the layouts searched by tiers
      one and two imply tier three's check. */
  lemma GccAnswerMentionsPowerpcGcc(t: Tree, top: string, xs: seq<Path>, d: Path)
    ensures var r := FindPowerpcGcc(t, top, xs, d);
            r.Some? ==> |r.value| > 0 && IsFile(t, r.value) && Contains(Lower(Render(top, r.value)), "powerpc")
                        && Contains(Lower(Name(r.value)), "gcc")
  {
    var c1, c2, c3 := Tier1Candidates(xs, d), Tier2Candidates(xs, d), Tier3Candidates(xs, d);
    var r := FirstOfTiers(t, c1, c2, c3, Tier3Test(t, top));
    assert r == FindPowerpcGcc(t, top, xs, d);
    if r.Some? {
      if r.value in c1 && IsFile(t, r.value) {
        Tier1MentionsPowerpcGcc(top, xs, d, r.value);
      } else if r.value in c2 && IsFile(t, r.value) {
        Tier2MentionsPowerpcGcc(top, xs, d, r.value);
      } else {
        assert Tier3Test(t, top)(r.value);
      }
    }
  }

  /** The plugin the release ships, at its fixed place. */
  const PluginDir := "com.pemicro.debug.gdbjtag.ppc_1.7.2.201709281658"
  const ServerName := "pegdbserver_power_console"

  function ServerFixed(d: Path): Path {
    d + ["plugins", PluginDir, "lin", ServerName]
  }

  /** The platform `find_pegdbserver` files a `rglob("pegdbserver_power_console*")`
      match under, from its lower-cased path string; None for an entry that is
      no match, not a file, or a `.exe` below a `lin` directory. */
  function ServerClass(t: Tree, top: string, d: Path): Path -> Option<Platform> {
    q =>
      if Below(d, q) && StartsWith(Name(q), ServerName) && IsFile(t, q) then
        var s := Lower(Render(top, q));
        if Contains(s, "/lin/") || EndsWith(s, ServerName) then
          if EndsWith(s, ".exe") then None else Some(Linux)
        else if Contains(s, "/win") || EndsWith(s, ".exe") then Some(Windows)
        else Some(Other)
      else None
  }

  /** `find_pegdbserver(directory)`: the fixed Linux binary when it exists,
      else the preferred candidate of the search. */
  function FindPegdbserver(t: Tree, top: string, xs: seq<Path>, d: Path): (r: Option<Path>)
    ensures Exists(t, ServerFixed(d)) ==> r == Some(ServerFixed(d))
    ensures !Exists(t, ServerFixed(d)) ==>
              && (r.Some? ==> r.value in xs && ServerClass(t, top, d)(r.value).Some?)
              && (HasClass(xs, ServerClass(t, top, d), Linux) ==>
                    IsFirstWhere(xs, x => ServerClass(t, top, d)(x) == Some(Linux), r))
              && (!HasClass(xs, ServerClass(t, top, d), Linux) && HasClass(xs, ServerClass(t, top, d), Other) ==>
                    IsFirstWhere(xs, x => ServerClass(t, top, d)(x) == Some(Other), r))
              && (!HasClass(xs, ServerClass(t, top, d), Linux) && !HasClass(xs, ServerClass(t, top, d), Other) ==>
                    IsFirstWhere(xs, x => ServerClass(t, top, d)(x) == Some(Windows), r))
    ensures r.None? <==> !Exists(t, ServerFixed(d)) && forall q :: q in xs ==> ServerClass(t, top, d)(q).None?
  {
    if Exists(t, ServerFixed(d)) then Some(ServerFixed(d)) else Prefer(xs, ServerClass(t, top, d))
  }

  /** A located server binary is never a Windows `.exe` while any Linux or
      unrecognised candidate exists, and a Linux answer is never a `.exe`. */
  lemma ServerAvoidsExe(t: Tree, top: string, xs: seq<Path>, d: Path)
    requires !Exists(t, ServerFixed(d))
    requires HasClass(xs, ServerClass(t, top, d), Linux) || HasClass(xs, ServerClass(t, top, d), Other)
    ensures var r := FindPegdbserver(t, top, xs, d);
            r.Some? && IsFile(t, r.value) && !EndsWith(Lower(Render(top, r.value)), ".exe")
  {
    var cls := ServerClass(t, top, d);
    var r := FindPegdbserver(t, top, xs, d);
    if HasClass(xs, cls, Linux) {
      var k :| 0 <= k < |xs| && xs[k] == r.value && cls(xs[k]) == Some(Linux);
    } else {
      var k :| 0 <= k < |xs| && xs[k] == r.value && cls(xs[k]) == Some(Other);
    }
  }

  function GdiFixed(d: Path): Path {
    d + ["plugins", PluginDir, "lin", "gdi"]
  }

  /** The platform `find_gdi_directory` files a `gdi` directory holding `P&E`
      under; None for every other entry and for a `gdi` directory whose path
      mentions neither "/lin/", "/win" nor "pemicro". */
  function GdiClass(t: Tree, top: string, d: Path): Path -> Option<Platform> {
    q =>
      if Below(d, q) && Name(q) == "gdi" && IsDir(t, q) && Exists(t, q + ["P&E"]) then
        var s := Lower(Render(top, q));
        if Contains(s, "/lin/") then Some(Linux)
        else if Contains(s, "/win") then Some(Windows)
        else if Contains(s, "pemicro") then Some(Other)
        else None
      else None
  }

  /** `find_gdi_directory(directory)`: the fixed Linux directory when it is one,
      else the preferred `gdi` directory of the search. */
  function FindGdiDirectory(t: Tree, top: string, xs: seq<Path>, d: Path): (r: Option<Path>)
    ensures IsDir(t, GdiFixed(d)) ==> r == Some(GdiFixed(d))
    ensures r.Some? ==> |r.value| > 0 && IsDir(t, r.value) && Name(r.value) == "gdi"
    ensures !IsDir(t, GdiFixed(d)) ==>
              && (r.Some? ==> Exists(t, r.value + ["P&E"]))
              && (HasClass(xs, GdiClass(t, top, d), Linux) ==>
                    IsFirstWhere(xs, x => GdiClass(t, top, d)(x) == Some(Linux), r))
              && (!HasClass(xs, GdiClass(t, top, d), Linux) && HasClass(xs, GdiClass(t, top, d), Other) ==>
                    IsFirstWhere(xs, x => GdiClass(t, top, d)(x) == Some(Other), r))
              && (!HasClass(xs, GdiClass(t, top, d), Linux) && !HasClass(xs, GdiClass(t, top, d), Other) ==>
                    IsFirstWhere(xs, x => GdiClass(t, top, d)(x) == Some(Windows), r))
    ensures r.None? <==> !IsDir(t, GdiFixed(d)) && forall q :: q in xs ==> GdiClass(t, top, d)(q).None?
  {
    if IsDir(t, GdiFixed(d)) then Some(GdiFixed(d))
    else
      var r := Prefer(xs, GdiClass(t, top, d));
      assert r.Some? ==> GdiClass(t, top, d)(r.value).Some?;
      r
  }

  /** `check_targets_found(directory)`: whether each locator finds something,
      stated through the candidates themselves. */
  function CheckTargetsFound(t: Tree, top: string, xs: seq<Path>, d: Path): (r: (bool, bool, bool))
    ensures r.0 <==> AnyFile(t, Tier1Candidates(xs, d)) || AnyFile(t, Tier2Candidates(xs, d))
                     || exists q :: q in Tier3Candidates(xs, d) && Tier3Test(t, top)(q)
    ensures r.1 <==> Exists(t, ServerFixed(d)) || exists q :: q in xs && ServerClass(t, top, d)(q).Some?
    ensures r.2 <==> IsDir(t, GdiFixed(d)) || exists q :: q in xs && GdiClass(t, top, d)(q).Some?
  {
    (FindPowerpcGcc(t, top, xs, d).Some?, FindPegdbserver(t, top, xs, d).Some?,
     FindGdiDirectory(t, top, xs, d).Some?)
  }

  /** The loop's goal: all three targets are present. */
  predicate TargetsFound(t: Tree, top: string, xs: seq<Path>) {
    var found := CheckTargetsFound(t, top, xs, []);
    found.0 && found.1 && found.2
  }
}
